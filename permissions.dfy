/** The permission table (utils/permission_manager.py): a map from e-mail to
    the list of granted permissions, kept as one JSON blob in storage. The
    blob is a field of the manager; decoding and encoding the JSON are taken
    to be inverse to each other, so the blob holds the map itself. */
module Permissions {

  type PermissionMap = map<string, seq<string>>

  /** What is in storage under the table's blob name: nothing, a readable
      table, or something that cannot be read back as one (a failed
      download or undecodable content). */
  datatype StoredTable = Missing | Saved(table: PermissionMap) | Unreadable

  /** What loading the blob gives: the table when it can be read, otherwise
      the empty table. */
  function Loaded(stored: StoredTable): (r: PermissionMap)
    ensures stored.Saved? ==> r == stored.table
    ensures !stored.Saved? ==> r == map[]
  {
    if stored.Saved? then stored.table else map[]
  }

  /** The permissions of one e-mail: the loaded entry, or none. */
  function PermissionsOf(stored: StoredTable, email: string): (r: seq<string>)
    ensures email in Loaded(stored) ==> r == Loaded(stored)[email]
    ensures email !in Loaded(stored) ==> r == []
  {
    var table := Loaded(stored);
    if email in table then table[email] else []
  }

  /** What a successful set leaves in storage: the loaded table with one
      entry replaced. */
  function WithEntry(stored: StoredTable, email: string, permissions: seq<string>): StoredTable {
    Saved(Loaded(stored)[email := permissions])
  }

  /** Set then get: the entry just written is read back. */
  lemma GetAfterSet(stored: StoredTable, email: string, permissions: seq<string>)
    ensures PermissionsOf(WithEntry(stored, email, permissions), email) == permissions
  {
  }

  /** Setting one e-mail's permissions leaves every other e-mail's as they
      read before. */
  lemma SetKeepsOthers(stored: StoredTable, email: string, permissions: seq<string>, other: string)
    requires other != email
    ensures PermissionsOf(WithEntry(stored, email, permissions), other) == PermissionsOf(stored, other)
  {
  }

  /** A table that cannot be read is replaced by a table holding only the
      entry being set: whatever it held is lost. */
  lemma UnreadableTableReplaced(email: string, permissions: seq<string>)
    ensures WithEntry(Unreadable, email, permissions) == Saved(map[email := permissions])
    ensures WithEntry(Missing, email, permissions) == Saved(map[email := permissions])
  {
  }

  /** Setting the same entry twice is setting it once. */
  lemma SetIdempotent(stored: StoredTable, email: string, permissions: seq<string>)
    ensures WithEntry(WithEntry(stored, email, permissions), email, permissions) == WithEntry(stored, email, permissions)
  {
  }

  class PermissionManager {
    /** The table's blob in the configuration container. */
    var stored: StoredTable

    constructor(initial: StoredTable)
      ensures stored == initial
    {
      stored := initial;
    }

    /** `load_permissions()`: the stored table, or the empty table when the
        blob is missing or cannot be read. */
    function LoadPermissions(): (r: PermissionMap)
      reads this
      ensures stored.Saved? ==> r == stored.table
      ensures !stored.Saved? ==> r == map[]
    {
      Loaded(stored)
    }

    /** `save_permissions(data)`: overwrite the whole table, reporting
        whether the upload went through. `uploadAccepted` is storage's
        answer to this upload; a rejected upload raises inside the method
        and is reported as `False`. */
    method SavePermissions(data: PermissionMap, uploadAccepted: bool) returns (ok: bool)
      modifies this
      ensures ok == uploadAccepted
      ensures ok ==> stored == Saved(data)
      ensures !ok ==> stored == old(stored)
    {
      ok := uploadAccepted;
      if ok {
        stored := Saved(data);
      }
    }

    /** `get_user_permissions(email)`. */
    function GetUserPermissions(email: string): (r: seq<string>)
      reads this
      ensures email in LoadPermissions() ==> r == LoadPermissions()[email]
      ensures email !in LoadPermissions() ==> r == []
    {
      PermissionsOf(stored, email)
    }

    /** `set_user_permissions(email, permissions)`: load, replace one entry,
        save the whole table. After a successful set the entry reads back as
        set and every other entry reads as it did before. */
    method SetUserPermissions(email: string, permissions: seq<string>, uploadAccepted: bool) returns (ok: bool)
      modifies this
      ensures ok == uploadAccepted
      ensures ok ==> stored == WithEntry(old(stored), email, permissions)
      ensures !ok ==> stored == old(stored)
      ensures ok ==> GetUserPermissions(email) == permissions
      ensures forall other :: other != email ==> GetUserPermissions(other) == old(GetUserPermissions(other))
    {
      var table := LoadPermissions();
      table := table[email := permissions];
      ok := SavePermissions(table, uploadAccepted);
      forall other | other != email
        ensures GetUserPermissions(other) == old(GetUserPermissions(other))
      {
        if ok {
          SetKeepsOthers(old(stored), email, permissions, other);
        }
      }
    }
  }
}
