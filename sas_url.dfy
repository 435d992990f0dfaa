/** `generate_sas_url` (app.py): a time-boxed signed URL for one blob (read
    only, optionally wrapped in the Office web viewer) or for the whole
    container (read, write, list, delete). The signing itself belongs to the
    storage SDK and is an oracle here; so is `mimetypes.guess_type`. Any
    failure gives the sentinel `"#"`. */
module SasUrl {
  import opened Wrappers
  import opened Text
  import opened Percent

  // ---------------------------------------------------------------------
  // Name cleaning: re.sub(r'\s*\(\s*p\.?\s*\d+\s*\)', '', name).strip()
  // ---------------------------------------------------------------------

  /** The first index at or after `i` that is not white space. */
  function SkipSpaces(s: string, i: nat): (j: nat)
    requires i <= |s|
    ensures i <= j <= |s|
    decreases |s| - i
  {
    if i < |s| && IsSpace(s[i]) then SkipSpaces(s, i + 1) else i
  }

  /** The first index at or after `i` that is not a decimal digit. */
  function SkipDigits(s: string, i: nat): (j: nat)
    requires i <= |s|
    ensures i <= j <= |s|
    decreases |s| - i
  {
    if i < |s| && IsDigit(s[i]) then SkipDigits(s, i + 1) else i
  }

  /** `SkipSpaces` passes over white space only, and stops at the first
      character that is not. */
  lemma {:induction false} SkipSpacesSpec(s: string, i: nat)
    requires i <= |s|
    ensures forall k :: i <= k < SkipSpaces(s, i) ==> IsSpace(s[k])
    ensures SkipSpaces(s, i) == |s| || !IsSpace(s[SkipSpaces(s, i)])
    decreases |s| - i
  {
    if i < |s| && IsSpace(s[i]) {
      SkipSpacesSpec(s, i + 1);
    }
  }

  /** Where a match of the page-reference pattern `\s*\(\s*p\.?\s*\d+\s*\)`
      starting at `i` ends, if there is one. Each repetition in the pattern
      is followed by something it cannot match itself, so the greedy first
      choice is the only one that can succeed and no backtracking is needed. */
  function PageRefAt(s: string, i: nat): (e: Option<nat>)
    requires i <= |s|
    ensures e.Some? ==> i < e.value <= |s|
  {
    var a := SkipSpaces(s, i);
    if a < |s| && s[a] == '(' then
      var b := SkipSpaces(s, a + 1);
      if b < |s| && s[b] == 'p' then
        var c := if b + 1 < |s| && s[b + 1] == '.' then b + 2 else b + 1;
        var d := SkipSpaces(s, c);
        var e := SkipDigits(s, d);
        if d < e then
          var f := SkipSpaces(s, e);
          if f < |s| && s[f] == ')' then Some(f + 1) else None
        else None
      else None
    else None
  }

  /** Where a match starting at each position of `s` ends, if one does. */
  function MatchTable(s: string): (m: seq<Option<nat>>)
    ensures |m| == |s| && forall k :: 0 <= k < |s| ==> m[k] == PageRefAt(s, k)
  {
    seq(|s|, k requires 0 <= k < |s| => PageRefAt(s, k))
  }

  /** Every match ends after it starts and within the string. */
  predicate Advances(m: seq<Option<nat>>) {
    forall k :: 0 <= k < |m| && m[k].Some? ==> k < m[k].value <= |m|
  }

  /** `re.sub(pattern, '', s)` scanning from index `i`, where `m` gives the
      end of the match starting at each position: a match is dropped and
      the scan resumes after it, anything else is copied. */
  function RemoveMatchesFrom(s: string, m: seq<Option<nat>>, i: nat): string
    requires |m| == |s| && Advances(m) && i <= |s|
    decreases |s| - i
  {
    if i == |s| then []
    else
      match m[i]
      case Some(e) => RemoveMatchesFrom(s, m, e)
      case None => [s[i]] + RemoveMatchesFrom(s, m, i + 1)
  }

  /** `re.sub` of the page-reference pattern with `''`. */
  function RemovePageRefs(s: string): string {
    var m := MatchTable(s);
    assert Advances(m);
    RemoveMatchesFrom(s, m, 0)
  }

  /** The blob name with page references such as " (p.1)" removed, stripped. */
  function CleanBlobName(name: string): (r: string)
    ensures Trimmed(r)
  {
    StripSpec(RemovePageRefs(name));
    Strip(RemovePageRefs(name))
  }

  /** With no match from `i` on, the substitution copies the rest of `s`. */
  lemma {:induction false} RemoveNothing(s: string, m: seq<Option<nat>>, i: nat)
    requires |m| == |s| && Advances(m) && i <= |s|
    requires forall k :: i <= k < |s| ==> m[k].None?
    ensures RemoveMatchesFrom(s, m, i) == s[i..]
    decreases |s| - i
  {
    if i < |s| {
      RemoveNothing(s, m, i + 1);
      assert [s[i]] + s[i + 1..] == s[i..];
    }
  }

  /** A name with no page reference and no white space around it is kept. */
  lemma CleanKeepsPlainName(name: string)
    requires forall k :: 0 <= k < |name| ==> PageRefAt(name, k).None?
    requires Trimmed(name)
    ensures CleanBlobName(name) == name
  {
    RemoveNothing(name, MatchTable(name), 0);
    StripTrimmed(name);
  }

  /** A name without `(` holds no page reference. */
  lemma NoParenNoPageRef(name: string, k: nat)
    requires k <= |name| && '(' !in name
    ensures PageRefAt(name, k).None?
  {
  }

  /** A trimmed name without `(` followed by any one page reference (" (p.3)",
      "(p 12)", "  ( p. 7 )", ...) cleans back to the name. */
  lemma CleanDropsPageRef(base: string, ref: string)
    requires Trimmed(base) && '(' !in base
    requires PageRefMatch(base + ref, |base|, |base + ref|)
    ensures CleanBlobName(base + ref) == base
  {
    var s := base + ref;
    var n := |base|;
    var m := MatchTable(s);
    assert forall k :: 0 <= k < n ==> m[k].None? by {
      forall k | 0 <= k < n
        ensures m[k].None?
      {
        NoPageRefInBase(base, s, k);
      }
    }
    assert m[n] == Some(|s|) by {
      MatchIsPageRef(s, n, |s|);
    }
    assert Advances(m);
    RemoveUpToLastMatch(s, m, n);
    assert s[..n] == base;
    StripTrimmed(base);
  }

  /** A trimmed name without `(` followed by " (p.N)" cleans back to the name. */
  lemma CleanDropsPageSuffix(base: string, digits: string)
    requires Trimmed(base) && '(' !in base
    requires |digits| >= 1 && forall k :: 0 <= k < |digits| ==> IsDigit(digits[k])
    ensures CleanBlobName(base + " (p." + digits + ")") == base
  {
    var ref := " (p." + digits + ")";
    assert base + " (p." + digits + ")" == base + ref;
    PageRefAtSuffix(base, digits);
    PageRefAtMatches(base + ref, |base|);
    CleanDropsPageRef(base, ref);
  }

  /** A string whose only match starts at `n` and runs to the end loses
      exactly what follows `n`. */
  lemma RemoveUpToLastMatch(s: string, m: seq<Option<nat>>, n: nat)
    requires |m| == |s| && Advances(m) && n < |s|
    requires forall k :: 0 <= k < n ==> m[k].None?
    requires m[n] == Some(|s|)
    ensures RemoveMatchesFrom(s, m, 0) == s[..n]
  {
    RemoveTail(s, m, n);
    CopyPrefix(s, m, 0, n);
    assert s[0..n] + [] == s[..n];
  }

  /** No match starts inside a trimmed, `(`-free head. */
  lemma NoPageRefInBase(base: string, s: string, k: nat)
    requires Trimmed(base) && '(' !in base
    requires StartsWith(s, base) && |s| > |base| && k < |base|
    ensures PageRefAt(s, k).None?
  {
    var n := |base|;
    var a := SkipSpaces(s, k);
    SkipSpacesSpec(s, k);
    assert s[n - 1] == base[n - 1];
    assert a < n;
    assert s[a] == base[a];
  }

  /** The suffix " (p.N)" is one match that runs to the end. */
  lemma PageRefAtSuffix(base: string, digits: string)
    requires |digits| >= 1 && forall k :: 0 <= k < |digits| ==> IsDigit(digits[k])
    ensures var s := base + " (p." + digits + ")"; PageRefAt(s, |base|) == Some(|s|)
  {
    var s := base + " (p." + digits + ")";
    var n := |base|;
    var d := n + 4;
    assert s[n] == ' ' && s[n + 1] == '(' && s[n + 2] == 'p' && s[n + 3] == '.';
    assert SkipSpaces(s, n + 1) == n + 1;
    assert SkipSpaces(s, n) == n + 1;
    assert SkipSpaces(s, n + 2) == n + 2;
    forall k | d <= k < d + |digits|
      ensures IsDigit(s[k])
    {
      assert s[k] == digits[k - d];
    }
    assert s[d + |digits|] == ')';
    assert SkipSpaces(s, d) == d;
    DigitsRun(s, d, |digits|);
    assert SkipSpaces(s, d + |digits|) == d + |digits|;
  }

  /** Over a run of `len` digits followed by a non-digit, `SkipDigits` stops
      right after the run. */
  lemma {:induction false} DigitsRun(s: string, d: nat, len: nat)
    requires d + len < |s|
    requires forall k :: d <= k < d + len ==> IsDigit(s[k])
    requires !IsDigit(s[d + len])
    ensures SkipDigits(s, d) == d + len
    decreases len
  {
    if len > 0 {
      DigitsRun(s, d + 1, len - 1);
    }
  }

  /** `SkipDigits` passes over digits only, and stops at the first character
      that is not one. */
  lemma {:induction false} SkipDigitsSpec(s: string, i: nat)
    requires i <= |s|
    ensures forall k :: i <= k < SkipDigits(s, i) ==> IsDigit(s[k])
    ensures SkipDigits(s, i) == |s| || !IsDigit(s[SkipDigits(s, i)])
    decreases |s| - i
  {
    if i < |s| && IsDigit(s[i]) {
      SkipDigitsSpec(s, i + 1);
    }
  }

  /** Over white space up to a character that is not, `SkipSpaces` stops
      there. */
  lemma {:induction false} SpacesRun(s: string, i: nat, a: nat)
    requires SpaceRun(s, i, a) && a < |s| && !IsSpace(s[a])
    ensures SkipSpaces(s, i) == a
    decreases a - i
  {
    if i < a {
      SpacesRun(s, i + 1, a);
    }
  }

  /** `s[from..to]` is white space only (possibly nothing): `\s*`. */
  predicate SpaceRun(s: string, from: int, to: int) {
    0 <= from <= to <= |s| && forall k :: from <= k < to ==> IsSpace(s[k])
  }

  /** `s[from..to]` is one or more decimal digits: `\d+`. */
  predicate DigitRun(s: string, from: int, to: int) {
    0 <= from < to <= |s| && forall k :: from <= k < to ==> IsDigit(s[k])
  }

  /** `s[i..f + 1]` splits along `\s*\(\s*p\.?\s*\d+\s*\)`: white space over
      `[i, a)`, `(` at `a`, white space over `[a + 1, b)`, `p` at `b`, the
      optional dot ending at `c`, white space over `[c, d)`, digits over
      `[d, g)`, white space over `[g, f)` and `)` at `f`. */
  predicate PageRefParts(s: string, i: int, a: int, b: int, c: int, d: int, g: int, f: int) {
    SpaceRun(s, i, a) && a < |s| && s[a] == '(' &&
    SpaceRun(s, a + 1, b) && b < |s| && s[b] == 'p' &&
    (c == b + 1 || (c == b + 2 && b + 1 < |s| && s[b + 1] == '.')) &&
    SpaceRun(s, c, d) && DigitRun(s, d, g) && SpaceRun(s, g, f) && f < |s| && s[f] == ')'
  }

  /** The page-reference pattern matches `s[i..e]` in some way. */
  ghost predicate PageRefMatch(s: string, i: int, e: int) {
    exists a, b, c, d, g, f :: PageRefParts(s, i, a, b, c, d, g, f) && e == f + 1
  }

  /** What `PageRefAt` finds is a match of the pattern. */
  lemma PageRefAtMatches(s: string, i: nat)
    requires i <= |s| && PageRefAt(s, i).Some?
    ensures PageRefMatch(s, i, PageRefAt(s, i).value)
  {
    var a, b, c, d, g, f := PageRefSteps(s, i);
    SkipSpacesRun(s, i);
    SkipSpacesRun(s, a + 1);
    SkipSpacesRun(s, c);
    SkipDigitsRun(s, d);
    SkipSpacesRun(s, g);
    assert PageRefParts(s, i, a, b, c, d, g, f);
  }

  /** The positions `PageRefAt` passes through when it finds a match. */
  lemma PageRefSteps(s: string, i: nat) returns (a: nat, b: nat, c: nat, d: nat, g: nat, f: nat)
    requires i <= |s| && PageRefAt(s, i).Some?
    ensures GreedySteps(s, i, a, b, c, d, g, f) && PageRefAt(s, i) == Some(f + 1)
  {
    a := SkipSpaces(s, i);
    b := SkipSpaces(s, a + 1);
    c := if b + 1 < |s| && s[b + 1] == '.' then b + 2 else b + 1;
    d := SkipSpaces(s, c);
    g := SkipDigits(s, d);
    f := SkipSpaces(s, g);
  }

  /** The steps `PageRefAt` takes from `i`, each one succeeding: white
      space up to `(` at `a`, white space up to `p` at `b`, the dot taken
      when there is one (ending at `c`), white space up to `d`, digits up to
      `g` (at least one), white space up to `)` at `f`. */
  predicate GreedySteps(s: string, i: nat, a: nat, b: nat, c: nat, d: nat, g: nat, f: nat) {
    i <= |s| && a == SkipSpaces(s, i) && a < |s| && s[a] == '(' &&
    b == SkipSpaces(s, a + 1) && b < |s| && s[b] == 'p' &&
    c == (if b + 1 < |s| && s[b + 1] == '.' then b + 2 else b + 1) &&
    c <= |s| && d == SkipSpaces(s, c) && g == SkipDigits(s, d) && d < g &&
    f == SkipSpaces(s, g) && f < |s| && s[f] == ')'
  }

  /** `PageRefAt` finds a match wherever the steps succeed. */
  lemma PageRefFromSteps(s: string, i: nat, a: nat, b: nat, c: nat, d: nat, g: nat, f: nat)
    requires GreedySteps(s, i, a, b, c, d, g, f)
    ensures PageRefAt(s, i) == Some(f + 1)
  {
  }

  /** `SkipSpaces` spans a run of white space. */
  lemma SkipSpacesRun(s: string, i: nat)
    requires i <= |s|
    ensures SpaceRun(s, i, SkipSpaces(s, i))
  {
    SkipSpacesSpec(s, i);
  }

  /** `SkipDigits` spans a run of digits, when it moves at all. */
  lemma SkipDigitsRun(s: string, i: nat)
    requires i <= |s|
    ensures i < SkipDigits(s, i) ==> DigitRun(s, i, SkipDigits(s, i))
  {
    SkipDigitsSpec(s, i);
  }

  /** Every match of the pattern is the one `PageRefAt` finds. */
  lemma MatchIsPageRef(s: string, i: nat, e: int)
    requires i <= |s| && PageRefMatch(s, i, e)
    ensures PageRefAt(s, i) == Some(e)
  {
    var a, b, c, d, g, f := MatchParts(s, i, e);
    PartsAreSteps(s, i, a, b, c, d, g, f);
    PageRefFromSteps(s, i, a, b, c, d, g, f);
  }

  /** The parts of some split along the pattern. */
  lemma MatchParts(s: string, i: nat, e: int) returns (a: nat, b: nat, c: nat, d: nat, g: nat, f: nat)
    requires PageRefMatch(s, i, e)
    ensures PageRefParts(s, i, a, b, c, d, g, f) && e == f + 1
  {
    var a', b', c', d', g', f' :| PageRefParts(s, i, a', b', c', d', g', f') && e == f' + 1;
    a, b, c, d, g, f := a', b', c', d', g', f';
  }

  /** The parts of a match are where the greedy steps stop. */
  lemma PartsAreSteps(s: string, i: nat, a: nat, b: nat, c: nat, d: nat, g: nat, f: nat)
    requires i <= |s| && PageRefParts(s, i, a, b, c, d, g, f)
    ensures GreedySteps(s, i, a, b, c, d, g, f)
  {
    SpacesRun(s, i, a);
    SpacesRun(s, a + 1, b);
    DotTaken(s, b, c, d, g);
    SpacesRun(s, c, d);
    DigitsThenClose(s, d, g, f);
    SpacesRun(s, g, f);
  }

  /** After `p`, a dot is always taken when there is one: what follows the
      optional dot is white space or a digit, never a dot. */
  lemma DotTaken(s: string, b: int, c: int, d: int, g: int)
    requires 0 <= b < |s|
    requires c == b + 1 || (c == b + 2 && b + 1 < |s| && s[b + 1] == '.')
    requires SpaceRun(s, c, d) && DigitRun(s, d, g)
    ensures c == if b + 1 < |s| && s[b + 1] == '.' then b + 2 else b + 1
  {
    assert IsSpace(s[c]) || IsDigit(s[c]);
    assert s[c] != '.';
  }

  /** The digits of a match are all of the digits there: white space or `)`
      comes next. */
  lemma DigitsThenClose(s: string, d: int, g: int, f: int)
    requires DigitRun(s, d, g) && SpaceRun(s, g, f) && f < |s| && s[f] == ')'
    ensures SkipDigits(s, d) == g
  {
    if g < f {
      assert IsSpace(s[g]);
    }
    assert !IsDigit(s[g]);
    DigitsRun(s, d, g - d);
  }

  /** `PageRefAt` is exactly the pattern: it finds an end if and only if the
      pattern matches there, and no match is missed. */
  lemma PageRefAtSpec(s: string, i: nat, e: int)
    requires i <= |s|
    ensures PageRefAt(s, i) == Some(e) <==> PageRefMatch(s, i, e)
  {
    if PageRefAt(s, i) == Some(e) {
      PageRefAtMatches(s, i);
    }
    if PageRefMatch(s, i, e) {
      MatchIsPageRef(s, i, e);
    }
  }

  /** A match starting at `i` can end in one place only, so taking the
      greedy choice at every repetition loses nothing. */
  lemma PageRefMatchUnique(s: string, i: nat, e1: int, e2: int)
    requires i <= |s| && PageRefMatch(s, i, e1) && PageRefMatch(s, i, e2)
    ensures e1 == e2
  {
    MatchIsPageRef(s, i, e1);
    MatchIsPageRef(s, i, e2);
  }

  /** A match running to the end leaves nothing after it. */
  lemma RemoveTail(s: string, m: seq<Option<nat>>, n: nat)
    requires |m| == |s| && Advances(m) && n < |s| && m[n] == Some(|s|)
    ensures RemoveMatchesFrom(s, m, n) == []
  {
  }

  /** Positions where no match starts are copied one by one. */
  lemma {:induction false} CopyPrefix(s: string, m: seq<Option<nat>>, i: nat, n: nat)
    requires |m| == |s| && Advances(m) && i <= n <= |s|
    requires forall k :: i <= k < n ==> m[k].None?
    ensures RemoveMatchesFrom(s, m, i) == s[i..n] + RemoveMatchesFrom(s, m, n)
    decreases n - i
  {
    if i < n {
      assert RemoveMatchesFrom(s, m, i) == [s[i]] + RemoveMatchesFrom(s, m, i + 1);
      CopyPrefix(s, m, i + 1, n);
      assert [s[i]] + s[i + 1..n] == s[i..n];
      assert [s[i]] + (s[i + 1..n] + RemoveMatchesFrom(s, m, n))
          == ([s[i]] + s[i + 1..n]) + RemoveMatchesFrom(s, m, n);
    }
  }

  lemma CleanExample()
    ensures CleanBlobName("report.pdf (p.3)") == "report.pdf"
  {
    CleanDropsPageSuffix("report.pdf", "3");
    assert "report.pdf" + " (p." + "3" + ")" == "report.pdf (p.3)";
  }

  // ---------------------------------------------------------------------
  // Signing
  // ---------------------------------------------------------------------

  /** The storage account; `key` is `None` when the client's credential
      holds no account key (the lookup raises). */
  datatype StorageAccount = StorageAccount(name: string, key: Option<string>)

  datatype SasPermissions = SasPermissions(read: bool, write: bool, list: bool, delete: bool)

  const ReadOnly := SasPermissions(true, false, false, false)
  const ReadWriteListDelete := SasPermissions(true, true, true, true)

  /** What `generate_blob_sas` is asked to sign. Times are in seconds. */
  datatype BlobSasRequest = BlobSasRequest(
    account: string, container: string, blob: string, key: string,
    permission: SasPermissions, start: int, expiry: int,
    contentDisposition: string, contentType: string)

  /** What `generate_container_sas` is asked to sign. */
  datatype ContainerSasRequest = ContainerSasRequest(
    account: string, container: string, key: string,
    permission: SasPermissions, start: int, expiry: int)

  /** The library calls: `mimetypes.guess_type` and the two SAS signers,
      each of which may raise (`None`). */
  datatype Sdk = Sdk(
    guessType: string -> Option<string>,
    signBlob: BlobSasRequest -> Option<string>,
    signContainer: ContainerSasRequest -> Option<string>)

  /** Start times are back-dated by fifteen minutes against clock skew. */
  const SkewSeconds: int := 15 * 60

  const Sentinel: string := "#"

  /** The content type and disposition the blob SAS carries: a PDF is always
      served as `application/pdf`, inline; otherwise the guessed type (or
      `application/octet-stream`) and the caller's disposition (or
      `inline`). */
  function ContentSettings(cleanName: string, guessed: Option<string>, disposition: Option<string>)
    : (r: (string, string))
    ensures r.0 != ""
    ensures EndsWith(Lower(cleanName), ".pdf") ==> r == ("application/pdf", "inline")
    ensures !EndsWith(Lower(cleanName), ".pdf") ==>
              (r.0 == "application/octet-stream" <==> guessed.None? || guessed.value in {"", "application/octet-stream"})
    ensures !EndsWith(Lower(cleanName), ".pdf") && guessed.Some? && guessed.value != "" ==> r.0 == guessed.value
    ensures !EndsWith(Lower(cleanName), ".pdf") ==> (disposition.Some? ==> r.1 == disposition.value) && (disposition.None? ==> r.1 == "inline")
  {
    if EndsWith(Lower(cleanName), ".pdf") then ("application/pdf", "inline")
    else
      var contentType := if guessed.None? || guessed.value == "" then "application/octet-stream" else guessed.value;
      (contentType, disposition.GetOr("inline"))
  }

  function BlobRequest(account: string, key: string, container: string, cleanName: string,
                       now: int, expiryHours: int, guessed: Option<string>, disposition: Option<string>)
    : BlobSasRequest
  {
    var settings := ContentSettings(cleanName, guessed, disposition);
    BlobSasRequest(account, container, cleanName, key, ReadOnly,
                   now - SkewSeconds, now + expiryHours * 3600, settings.1, settings.0)
  }

  function ContainerRequest(account: string, key: string, container: string, now: int, expiryHours: int)
    : ContainerSasRequest
  {
    ContainerSasRequest(account, container, key, ReadWriteListDelete, now - SkewSeconds, now + expiryHours * 3600)
  }

  function Host(account: string): string {
    "https://" + account + ".blob.core.windows.net/"
  }

  /** `https://{account}.blob.core.windows.net/{container}/{quote(name, safe='/')}?{token}` */
  function BlobUrl(account: string, container: string, cleanName: string, token: string): string {
    Host(account) + container + "/" + Quote(cleanName, "/") + "?" + token
  }

  /** `https://{account}.blob.core.windows.net/{container}?{token}` */
  function ContainerUrl(account: string, container: string, token: string): string {
    Host(account) + container + "?" + token
  }

  const OfficeViewer: string := "https://view.officeapps.live.com/op/view.aspx?src="

  const OfficeExtensions: seq<string> := [".pptx", ".ppt", ".docx", ".doc", ".xlsx", ".xls"]

  predicate IsOfficeName(lowerName: string) {
    exists e :: e in OfficeExtensions && EndsWith(lowerName, e)
  }

  /** Python truthiness of the optional page number. */
  predicate HasPage(page: Option<int>) {
    page.Some? && page.value != 0
  }

  /** What is handed out for a signed blob URL: the URL itself with
      `no_viewer`; otherwise Office documents go through the web viewer,
      PDFs get a `#page=` fragment when a page is given, and anything else
      is the URL itself. */
  function ViewerUrl(cleanName: string, sasUrl: string, page: Option<int>, noViewer: bool): (r: string)
    ensures noViewer ==> r == sasUrl
    ensures StartsWith(r, sasUrl) || StartsWith(r, OfficeViewer)
  {
    if noViewer then sasUrl
    else
      var lowerName := Lower(cleanName);
      if IsOfficeName(lowerName) then OfficeViewer + Quote(sasUrl, "/")
      else if EndsWith(lowerName, ".pdf") then
        sasUrl + (if HasPage(page) then "#page=" + IntToString(page.value) else "")
      else sasUrl
  }

  predicate NamesBlob(blobName: Option<string>) {
    blobName.Some? && blobName.value != ""
  }

  /** The signed URL of one blob, or `None` when signing fails (no account
      key, or the signer raises). */
  function SignedBlobUrl(account: StorageAccount, container: string, cleanName: string,
                         expiryHours: int, disposition: Option<string>, now: int, sdk: Sdk): (r: Option<string>)
    ensures r.Some? ==> |r.value| > 0 && r.value[0] == 'h'
  {
    match account.key
    case None => None
    case Some(key) =>
      match sdk.signBlob(BlobRequest(account.name, key, container, cleanName, now, expiryHours,
                                     sdk.guessType(cleanName), disposition))
      case None => None
      case Some(token) => Some(BlobUrl(account.name, container, cleanName, token))
  }

  /** The signed URL of the whole container, or `None` when signing fails. */
  function SignedContainerUrl(account: StorageAccount, container: string, expiryHours: int,
                              now: int, sdk: Sdk): (r: Option<string>)
    ensures r.Some? ==> |r.value| > 0 && r.value[0] == 'h'
  {
    match account.key
    case None => None
    case Some(key) =>
      match sdk.signContainer(ContainerRequest(account.name, key, container, now, expiryHours))
      case None => None
      case Some(token) => Some(ContainerUrl(account.name, container, token))
  }

  /** Whatever the viewer rules do to a signed URL, the result is not the
      sentinel. */
  lemma ViewerUrlNotSentinel(cleanName: string, sasUrl: string, page: Option<int>, noViewer: bool)
    requires |sasUrl| > 0 && sasUrl[0] == 'h'
    ensures ViewerUrl(cleanName, sasUrl, page, noViewer) != Sentinel
  {
    var url := ViewerUrl(cleanName, sasUrl, page, noViewer);
    if !noViewer {
      var lowerName := Lower(cleanName);
      if IsOfficeName(lowerName) {
        assert url == OfficeViewer + Quote(sasUrl, "/");
        assert |url| > |Sentinel|;
      } else if EndsWith(lowerName, ".pdf") {
        assert url[0] == sasUrl[0];
      }
    }
  }

  /** `generate_sas_url(client, container, blob_name, page, permission,
      expiry_hours, content_disposition, no_viewer)` at time `now`. The
      `permission` argument is not a parameter: the source never reads it.
      The result is the sentinel exactly when signing fails. */
  function GenerateSasUrl(account: StorageAccount, container: string, blobName: Option<string>,
                          page: Option<int>, expiryHours: int, disposition: Option<string>,
                          noViewer: bool, now: int, sdk: Sdk): (url: string)
    ensures url == Sentinel <==>
              if NamesBlob(blobName)
              then SignedBlobUrl(account, container, CleanBlobName(blobName.value), expiryHours, disposition, now, sdk).None?
              else SignedContainerUrl(account, container, expiryHours, now, sdk).None?
  {
    if NamesBlob(blobName) then
      var clean := CleanBlobName(blobName.value);
      match SignedBlobUrl(account, container, clean, expiryHours, disposition, now, sdk)
      case None => Sentinel
      case Some(sasUrl) =>
        ViewerUrlNotSentinel(clean, sasUrl, page, noViewer);
        ViewerUrl(clean, sasUrl, page, noViewer)
    else
      match SignedContainerUrl(account, container, expiryHours, now, sdk)
      case None => Sentinel
      case Some(url) => url
  }

  /** Every signature is valid from fifteen minutes before `now` until
      `expiryHours` after it; a blob signature grants reading only, a
      container signature reading, writing, listing and deleting. */
  lemma SignatureScopes(account: string, key: string, container: string, cleanName: string,
                        now: int, expiryHours: int, guessed: Option<string>, disposition: Option<string>)
    ensures var b := BlobRequest(account, key, container, cleanName, now, expiryHours, guessed, disposition);
            b.start == now - 900 && b.expiry - b.start == 900 + 3600 * expiryHours &&
            b.permission.read && !b.permission.write && !b.permission.list && !b.permission.delete &&
            b.blob == cleanName
    ensures var c := ContainerRequest(account, key, container, now, expiryHours);
            c.start == now - 900 && c.expiry - c.start == 900 + 3600 * expiryHours &&
            c.permission.read && c.permission.write && c.permission.list && c.permission.delete
  {
  }

  /** A PDF is signed as `application/pdf`, inline, whatever type the
      library guesses and whatever disposition the caller asks for. */
  lemma PdfAlwaysInline(account: string, key: string, container: string, cleanName: string,
                        now: int, expiryHours: int, guessed: Option<string>, disposition: Option<string>)
    requires EndsWith(Lower(cleanName), ".pdf")
    ensures var b := BlobRequest(account, key, container, cleanName, now, expiryHours, guessed, disposition);
            b.contentType == "application/pdf" && b.contentDisposition == "inline"
  {
  }

  /** A signed blob URL is signed with the account key, read-only, over the
      cleaned name, and the URL carries the cleaned name percent-encoded
      and the token after `?`. */
  lemma SignedBlobUrlShape(account: StorageAccount, container: string, cleanName: string,
                           expiryHours: int, disposition: Option<string>, now: int, sdk: Sdk)
    requires SignedBlobUrl(account, container, cleanName, expiryHours, disposition, now, sdk).Some?
    ensures account.key.Some?
    ensures var request := BlobRequest(account.name, account.key.value, container, cleanName, now,
                                       expiryHours, sdk.guessType(cleanName), disposition);
            sdk.signBlob(request).Some? &&
            SignedBlobUrl(account, container, cleanName, expiryHours, disposition, now, sdk).value
              == Host(account.name) + container + "/" + Quote(cleanName, "/") + "?" + sdk.signBlob(request).value
  {
  }

  /** A blob URL names the cleaned blob: page references are never part of
      what is signed or addressed. */
  lemma BlobSasUsesCleanName(account: StorageAccount, container: string, blobName: string,
                             page: Option<int>, expiryHours: int, disposition: Option<string>,
                             noViewer: bool, now: int, sdk: Sdk)
    requires blobName != ""
    ensures var signed := SignedBlobUrl(account, container, CleanBlobName(blobName), expiryHours, disposition, now, sdk);
            signed.Some? ==>
              GenerateSasUrl(account, container, Some(blobName), page, expiryHours, disposition, noViewer, now, sdk)
                == ViewerUrl(CleanBlobName(blobName), signed.value, page, noViewer)
  {
  }

  /** With `no_viewer` the signed blob URL itself is handed out. */
  lemma NoViewerGivesSignedUrl(account: StorageAccount, container: string, blobName: string,
                               page: Option<int>, expiryHours: int, disposition: Option<string>,
                               now: int, sdk: Sdk)
    requires blobName != ""
    ensures var signed := SignedBlobUrl(account, container, CleanBlobName(blobName), expiryHours, disposition, now, sdk);
            signed.Some? ==>
              GenerateSasUrl(account, container, Some(blobName), page, expiryHours, disposition, true, now, sdk)
                == signed.value
  {
    BlobSasUsesCleanName(account, container, blobName, page, expiryHours, disposition, true, now, sdk);
  }

  /** A name ending in `.pdf` is not an Office document. */
  lemma PdfNotOffice(lowerName: string)
    requires EndsWith(lowerName, ".pdf")
    ensures !IsOfficeName(lowerName)
  {
    var n := |lowerName|;
    assert lowerName[n - 1] == lowerName[n - 4..][3] == 'f';
    forall e | e in OfficeExtensions
      ensures !EndsWith(lowerName, e)
    {
      assert e[|e| - 1] != 'f';
      if |e| <= n {
        assert lowerName[n - |e|..][|e| - 1] == lowerName[n - 1];
      }
    }
  }

  /** Outside the viewer, a PDF link carries `#page=` and the page number
      exactly when a page is given and is not 0, and that number reads back
      as the page; without a page it is the signed URL itself. */
  lemma PdfPageFragment(account: StorageAccount, container: string, blobName: string,
                        page: Option<int>, expiryHours: int, disposition: Option<string>, now: int, sdk: Sdk)
    requires blobName != "" && EndsWith(Lower(CleanBlobName(blobName)), ".pdf")
    ensures var signed := SignedBlobUrl(account, container, CleanBlobName(blobName), expiryHours, disposition, now, sdk);
            var url := GenerateSasUrl(account, container, Some(blobName), page, expiryHours, disposition, false, now, sdk);
            signed.Some? ==>
              (HasPage(page) ==> url == signed.value + "#page=" + IntToString(page.value)) &&
              (!HasPage(page) ==> url == signed.value) &&
              (HasPage(page) && page.value > 0 ==> DecimalValue(url[|signed.value| + 6..]) == page.value)
  {
    var clean := CleanBlobName(blobName);
    var signed := SignedBlobUrl(account, container, clean, expiryHours, disposition, now, sdk);
    if signed.Some? {
      BlobSasUsesCleanName(account, container, blobName, page, expiryHours, disposition, false, now, sdk);
      PdfViewerUrl(clean, signed.value, page);
      if HasPage(page) && page.value > 0 {
        PageNumberReadsBack(signed.value, page.value);
      }
    }
  }

  /** The viewer rules for a PDF outside the viewer. */
  lemma PdfViewerUrl(cleanName: string, sasUrl: string, page: Option<int>)
    requires EndsWith(Lower(cleanName), ".pdf")
    ensures HasPage(page) ==> ViewerUrl(cleanName, sasUrl, page, false) == sasUrl + "#page=" + IntToString(page.value)
    ensures !HasPage(page) ==> ViewerUrl(cleanName, sasUrl, page, false) == sasUrl
  {
    PdfNotOffice(Lower(cleanName));
    if !HasPage(page) {
      assert sasUrl + "" == sasUrl;
    }
  }

  /** The number after `#page=` reads back as the page. */
  lemma PageNumberReadsBack(sasUrl: string, page: int)
    requires page > 0
    ensures var url := sasUrl + "#page=" + IntToString(page);
            DecimalValue(url[|sasUrl| + 6..]) == page
  {
    var url := sasUrl + "#page=" + IntToString(page);
    assert url == sasUrl + ("#page=" + NatToString(page));
    assert url[|sasUrl| + 6..] == NatToString(page);
    NatToStringValue(page);
  }

  /** Outside the viewer, a blob that is neither an Office document nor a
      PDF gets the signed URL itself, page or no page. */
  lemma OtherNamesPlainUrl(account: StorageAccount, container: string, blobName: string,
                           page: Option<int>, expiryHours: int, disposition: Option<string>, now: int, sdk: Sdk)
    requires blobName != ""
    requires !IsOfficeName(Lower(CleanBlobName(blobName))) && !EndsWith(Lower(CleanBlobName(blobName)), ".pdf")
    ensures var signed := SignedBlobUrl(account, container, CleanBlobName(blobName), expiryHours, disposition, now, sdk);
            signed.Some? ==>
              GenerateSasUrl(account, container, Some(blobName), page, expiryHours, disposition, false, now, sdk)
                == signed.value
  {
    BlobSasUsesCleanName(account, container, blobName, page, expiryHours, disposition, false, now, sdk);
  }

  /** A container URL is the container address with the token after `?`. */
  lemma ContainerUrlShape(account: StorageAccount, container: string, page: Option<int>,
                          expiryHours: int, disposition: Option<string>, noViewer: bool, now: int, sdk: Sdk)
    requires SignedContainerUrl(account, container, expiryHours, now, sdk).Some?
    ensures account.key.Some?
    ensures var request := ContainerRequest(account.name, account.key.value, container, now, expiryHours);
            sdk.signContainer(request).Some? &&
            GenerateSasUrl(account, container, None, page, expiryHours, disposition, noViewer, now, sdk)
              == Host(account.name) + container + "?" + sdk.signContainer(request).value
  {
  }

  /** The viewer's `src` parameter decodes back to the signed URL. */
  lemma ViewerSourceDecodes(cleanName: string, sasUrl: string, page: Option<int>)
    requires IsOfficeName(Lower(cleanName))
    ensures var url := ViewerUrl(cleanName, sasUrl, page, false);
            StartsWith(url, OfficeViewer) && Unquote(url[|OfficeViewer|..]) == Utf8(sasUrl)
  {
    var url := ViewerUrl(cleanName, sasUrl, page, false);
    assert url == OfficeViewer + Quote(sasUrl, "/");
    assert url[|OfficeViewer|..] == Quote(sasUrl, "/");
    UnquoteQuote(sasUrl, "/");
  }

  /** The path segment of a blob URL decodes back to the cleaned name. */
  lemma BlobPathDecodes(cleanName: string)
    ensures Unquote(Quote(cleanName, "/")) == Utf8(cleanName)
  {
    UnquoteQuote(cleanName, "/");
  }
}
