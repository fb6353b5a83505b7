/** One line of a crash report's mod-state table, `<flags> <modid>{<version>} [<name>] (<file>)`,
    parsed into an installed-mod record (`InstalledMod.parse` and the `coremods` table). */
module InstalledMods {
  import opened Text

  datatype InstalledMod = InstalledMod(
    modid: string, version: string, modname: string, filename: string,
    errored: bool, disabled: bool)

  /** What parsing one line gives: the line does not match the grammar (Python raises ValueError),
      it matches but names no real mod file (Python returns None), or a record. */
  datatype ParseOutcome = NoMatch | NoRecord | Record(mod: InstalledMod)

  /** The pieces of a matching line, left to right: the status flags, the whitespace after them
      and the named groups of the pattern. */
  datatype Groups = Groups(
    status: string, gap: string, modid: string, version: string, modname: string, filename: string)

  function Render(g: Groups): string {
    g.status + g.gap + g.modid + "{" + VersionTail(g.version, g.modname, g.filename)
  }

  /** The line after the opening brace. */
  function VersionTail(version: string, modname: string, filename: string): string {
    version + "} [" + NamesTail(modname, filename)
  }

  /** The line after the opening square bracket. */
  function NamesTail(modname: string, filename: string): string {
    modname + Separator + filename + ")"
  }

  predicate IsStatusChar(c: char) {
    c == 'U' || c == 'L' || c == 'C' || c == 'H' || c == 'I' || c == 'J' || c == 'A' || c == 'D' || c == 'E'
  }

  /** What each part of the pattern admits: `[ULCHIJADE]+`, `\s+`, `[^{ \t][^{]*`, `[^}]+`,
      `.+` and `.+` (a `.` matches anything but a newline). */
  predicate WellFormed(g: Groups) {
    && g.status != [] && (forall i :: 0 <= i < |g.status| ==> IsStatusChar(g.status[i]))
    && g.gap != [] && (forall i :: 0 <= i < |g.gap| ==> IsSpace(g.gap[i]))
    && g.modid != [] && g.modid[0] != ' ' && g.modid[0] != '\t' && '{' !in g.modid
    && g.version != [] && '}' !in g.version
    && g.modname != [] && '\n' !in g.modname
    && g.filename != [] && '\n' !in g.filename
  }

  const Separator := "] ("

  /** Length of the leading run of status letters. */
  function StatusRun(s: string): (n: nat)
    ensures n <= |s|
    ensures forall i :: 0 <= i < n ==> IsStatusChar(s[i])
    ensures n < |s| ==> !IsStatusChar(s[n])
  {
    if s != [] && IsStatusChar(s[0]) then 1 + StatusRun(s[1..]) else 0
  }

  /** Length of the leading run of whitespace. */
  function SpaceRun(s: string): (n: nat)
    ensures n <= |s|
    ensures forall i :: 0 <= i < n ==> IsSpace(s[i])
    ensures n < |s| ==> !IsSpace(s[n])
  {
    if s != [] && IsSpace(s[0]) then 1 + SpaceRun(s[1..]) else 0
  }

  /** The greedy `\s+` gives back whitespace one character at a time until the modid can start:
      the largest `m` in `1..k` whose character is neither a space nor a tab, or 0. */
  function ModidStart(r: string, k: nat): (m: nat)
    requires k < |r|
    ensures m <= k
    ensures m > 0 ==> r[m] != ' ' && r[m] != '\t'
    ensures forall j :: m < j <= k && j > 0 ==> r[j] == ' ' || r[j] == '\t'
  {
    if k == 0 then 0
    else if r[k] != ' ' && r[k] != '\t' then k
    else ModidStart(r, k - 1)
  }

  /** The greedy `.+` of the modname gives back characters until `] (` follows: the largest `m`
      in `1..k` where the separator occurs, or 0. */
  function LastSeparator(u: string, k: nat): (m: nat)
    ensures m <= k
    ensures m > 0 ==> IsAt(u, Separator, m)
    ensures forall j: nat :: m < j <= k ==> !IsAt(u, Separator, j)
  {
    if k == 0 then 0
    else if IsAt(u, Separator, k) then k
    else LastSeparator(u, k - 1)
  }

  /** `(.+)] \((.+)\)` fully matched against `u`: modname and filename. */
  function MatchNames(u: string): Option<(string, string)> {
    if '\n' in u || |u| < 6 || u[|u| - 1] != ')' then None
    else
      var j := LastSeparator(u, |u| - 5);
      if j == 0 then None else Some((u[..j], u[j + 3..|u| - 1]))
  }

  /** `(.+)} \[` followed by the names, matched against the text after the opening brace. */
  function MatchVersion(v: string): Option<(string, string, string)> {
    var c := IndexOfChar(v, '}');
    if c == 0 || c == |v| || !StartsWith(v[c + 1..], " [") then None
    else
      match MatchNames(v[c + 3..])
      case None => None
      case Some(names) => Some((v[..c], names.0, names.1))
  }

  /** `[ULCHIJADE]+\s+([^{ \t][^{]*)\{` matched at the start of the line: the status letters,
      the whitespace, the modid and the text after the opening brace. */
  function MatchHead(line: string): Option<(string, string, string, string)> {
    var n := StatusRun(line);
    var r := line[n..];
    var w := SpaceRun(r);
    var b := IndexOfChar(r, '{');
    if n == 0 || w == 0 || b == |r| || b < 2 then None
    else
      var k := ModidStart(r, if w < b - 1 then w else b - 1);
      if k == 0 then None else Some((line[..n], r[..k], r[k..b], r[b + 1..]))
  }

  /** The full match of the mod-line pattern, as Python's backtracking `re.fullmatch` picks it. */
  function MatchLine(line: string): Option<Groups> {
    match MatchHead(line)
    case None => None
    case Some(h) =>
      match MatchVersion(h.3)
      case None => None
      case Some(rest) => Some(Groups(h.0, h.1, h.2, rest.0, rest.1, rest.2))
  }

  /** Coremods packed in `minecraft.jar` whose real filename can be rebuilt. */
  const Coremods: set<string> := {"CodeChickenCore", "PlayerAPI"}

  /** The filename convention shared by every known coremod. */
  function CoremodFilename(modid: string, version: string): string {
    modid + "-" + version + ".jar"
  }

  /** `InstalledMod.parse`: a line the pattern rejects is the ValueError, otherwise the groups are
      interpreted. */
  function Parse(line: string): ParseOutcome {
    match MatchLine(line)
    case None => NoMatch
    case Some(g) => Interpret(g)
  }

  /** What `parse` makes of the groups: loader pseudo-mods are dropped before the coremod rule is
      consulted. */
  function Interpret(g: Groups): ParseOutcome {
    if g.modid in {"FML", "Forge"} then NoRecord
    else if g.filename == "minecraft.jar" then
      if g.modid in Coremods
      then Record(InstalledMod(g.modid, g.version, g.modname, CoremodFilename(g.modid, g.version),
                               'E' in g.status, 'D' in g.status))
      else NoRecord
    else Record(InstalledMod(g.modid, g.version, g.modname, g.filename, 'E' in g.status, 'D' in g.status))
  }

  // ---------------------------------------------------------------------------------------------
  // Soundness: whatever MatchLine returns is a well-formed decomposition of the line.

  lemma NamesSound(u: string)
    requires MatchNames(u).Some?
    ensures var (m, f) := MatchNames(u).value;
      u == NamesTail(m, f) && m != [] && f != [] && '\n' !in m && '\n' !in f
  {
    NamesPieces(u, LastSeparator(u, |u| - 5));
  }

  /** A text without line breaks that holds the separator at `j` and ends with ')' is the names
      tail of the two pieces around it. */
  lemma NamesPieces(u: string, j: nat)
    requires 0 < j && j + 5 <= |u| && IsAt(u, Separator, j) && u[|u| - 1] == ')' && '\n' !in u
    ensures var m, f := u[..j], u[j + 3..|u| - 1];
      u == NamesTail(m, f) && '\n' !in m && '\n' !in f
  {
    var m, f := u[..j], u[j + 3..|u| - 1];
    assert u == m + u[j..j + 3] + f + [u[|u| - 1]];
    assert forall c :: c in m ==> c in u;
    assert forall c :: c in f ==> c in u;
  }

  lemma VersionSound(v: string)
    requires MatchVersion(v).Some?
    ensures var (ver, m, f) := MatchVersion(v).value;
      v == VersionTail(ver, m, f) && ver != [] && '}' !in ver
      && m != [] && f != [] && '\n' !in m && '\n' !in f
  {
    var c := IndexOfChar(v, '}');
    NamesSound(v[c + 3..]);
    VersionCut(v, c);
    assert forall ch :: ch in v[..c] ==> ch != '}' by {
      assert forall i :: 0 <= i < c ==> v[..c][i] == v[i];
    }
  }

  /** A text with `} [` at `c` is what comes before, the three characters and what follows. */
  lemma VersionCut(v: string, c: nat)
    requires c < |v| && v[c] == '}' && StartsWith(v[c + 1..], " [")
    ensures c + 3 <= |v| && v == v[..c] + "} [" + v[c + 3..]
  {
    assert v[c + 1..][..2] == v[c + 1..c + 3];
    assert v[c..c + 3] == "} [";
    assert v == v[..c] + v[c..c + 3] + v[c + 3..];
  }

  /** `line` is spelled by status letters, whitespace, a modid the pattern admits, a brace and `v`. */
  predicate HeadShape(line: string, st: string, gap: string, id: string, v: string) {
    && line == st + gap + id + "{" + v
    && st != [] && (forall i :: 0 <= i < |st| ==> IsStatusChar(st[i]))
    && gap != [] && (forall i :: 0 <= i < |gap| ==> IsSpace(gap[i]))
    && id != [] && id[0] != ' ' && id[0] != '\t' && '{' !in id
  }

  /** Cutting a line at `n`, then its rest at `k` and around a brace at `b`, spells it again. */
  lemma CutsSpell(line: string, n: nat, k: nat, b: nat)
    requires n <= |line| && k <= b < |line| - n && line[n + b] == '{'
    ensures var r := line[n..]; line == line[..n] + r[..k] + r[k..b] + "{" + r[b + 1..]
  {
    var r := line[n..];
    var st, gap, id, v := line[..n], r[..k], r[k..b], r[b + 1..];
    assert r[b..] == "{" + v;
    assert r[k..] == id + r[b..];
    assert r == gap + r[k..];
    assert line == st + r;
    AppendTwice(st + gap + id, "{", v);
    AppendTwice(st + gap, id, "{" + v);
    AppendTwice(st, gap, id + ("{" + v));
  }

  /** The four pieces MatchHead returns spell the line, with the brace between the last two. */
  lemma HeadSpelled(line: string)
    requires MatchHead(line).Some?
    ensures var h := MatchHead(line).value; line == h.0 + h.1 + h.2 + "{" + h.3
  {
    var n := StatusRun(line);
    var r := line[n..];
    var b := IndexOfChar(r, '{');
    var k := ModidStart(r, if SpaceRun(r) < b - 1 then SpaceRun(r) else b - 1);
    assert MatchHead(line).value == (line[..n], r[..k], r[k..b], r[b + 1..]);
    CutsSpell(line, n, k, b);
  }

  /** Each piece MatchHead returns is of the kind the pattern admits there. */
  lemma HeadPieces(line: string)
    requires MatchHead(line).Some?
    ensures var h := MatchHead(line).value;
      && h.0 != [] && (forall i :: 0 <= i < |h.0| ==> IsStatusChar(h.0[i]))
      && h.1 != [] && (forall i :: 0 <= i < |h.1| ==> IsSpace(h.1[i]))
      && h.2 != [] && h.2[0] != ' ' && h.2[0] != '\t' && '{' !in h.2
  {
    var n := StatusRun(line);
    var r := line[n..];
    var w := SpaceRun(r);
    var b := IndexOfChar(r, '{');
    var k := ModidStart(r, if w < b - 1 then w else b - 1);
    var id := r[k..b];
    assert MatchHead(line).value == (line[..n], r[..k], id, r[b + 1..]);
    assert forall i :: 0 <= i < |id| ==> id[i] == r[k + i];
  }

  lemma HeadSound(line: string)
    requires MatchHead(line).Some?
    ensures var h := MatchHead(line).value; HeadShape(line, h.0, h.1, h.2, h.3)
  {
    HeadSpelled(line);
    HeadPieces(line);
  }

  /** Every match MatchLine reports is a decomposition of the line that the pattern admits. */
  lemma MatchLineSound(line: string)
    requires MatchLine(line).Some?
    ensures WellFormed(MatchLine(line).value) && Render(MatchLine(line).value) == line
  {
    var h := MatchHead(line).value;
    HeadSound(line);
    var rest := MatchVersion(h.3).value;
    VersionSound(h.3);
    var g := Groups(h.0, h.1, h.2, rest.0, rest.1, rest.2);
    assert MatchLine(line) == Some(g);
    assert h.3 == VersionTail(rest.0, rest.1, rest.2);
  }

  // ---------------------------------------------------------------------------------------------
  // Completeness: every well-formed decomposition is found, and exactly when it is unambiguous.

  lemma SeparatorNeedsBracket(f: string)
    requires ']' !in f
    ensures !Contains(f, Separator)
  {
    forall i: nat | i + 3 <= |f| ensures !IsAt(f, Separator, i) {
      assert f[i] in f;
      assert f[i..i + 3][0] == f[i];
    }
  }

  lemma JarHasNoSeparator()
    ensures !Contains("minecraft.jar", Separator)
  {
    SeparatorNeedsBracket("minecraft.jar");
  }

  /** The separator that follows the modname is the last one when the filename holds none. */
  lemma OnlySeparator(m: string, f: string)
    requires m != [] && f != [] && !Contains(f, Separator)
    ensures var u := NamesTail(m, f); forall j: nat :: |m| < j <= |u| - 5 ==> !IsAt(u, Separator, j)
  {
    var u := NamesTail(m, f);
    assert u == m + "] (" + f + ")";
    forall j: nat | |m| < j <= |u| - 5 ensures !IsAt(u, Separator, j) {
      if j == |m| + 1 {
        assert u[j] == ' ';
        assert u[j..j + 3][0] == u[j];
      } else if j == |m| + 2 {
        assert u[j] == '(';
        assert u[j..j + 3][0] == u[j];
      } else {
        assert u[j..j + 3] == f[j - |m| - 3..j - |m|];
        assert !IsAt(f, Separator, j - |m| - 3);
      }
    }
  }

  /** Cutting the names tail at the end of the modname and around the closing parenthesis. */
  lemma NamesCut(m: string, f: string)
    ensures var u := NamesTail(m, f);
      |u| == |m| + |f| + 4 && IsAt(u, Separator, |m|) && u[|u| - 1] == ')'
      && u[..|m|] == m && u[|m| + 3..|u| - 1] == f
  {
    var u := NamesTail(m, f);
    assert u == m + ("] (" + f + ")");
    assert u[|m|..|m| + 3] == "] (";
  }

  lemma NamesComplete(m: string, f: string)
    requires m != [] && f != [] && '\n' !in m && '\n' !in f
    ensures MatchNames(NamesTail(m, f)).Some?
    ensures !Contains(f, Separator) ==> MatchNames(NamesTail(m, f)) == Some((m, f))
  {
    var u := NamesTail(m, f);
    NamesCut(m, f);
    assert '\n' !in u by {
      assert u == m + "] (" + f + ")";
    }
    var j := LastSeparator(u, |u| - 5);
    assert j >= |m|;
    if !Contains(f, Separator) {
      OnlySeparator(m, f);
      assert j == |m|;
    }
  }

  lemma VersionComplete(ver: string, m: string, f: string)
    requires ver != [] && '}' !in ver && m != [] && f != [] && '\n' !in m && '\n' !in f
    ensures MatchVersion(VersionTail(ver, m, f)).Some?
    ensures var r := MatchVersion(VersionTail(ver, m, f)).value;
      r.0 == ver && (!Contains(f, Separator) ==> r == (ver, m, f))
  {
    VersionCutAt(ver, m, f);
    NamesComplete(m, f);
  }

  /** The version tail is cut at the first '}', which ends the version. */
  lemma VersionCutAt(ver: string, m: string, f: string)
    requires '}' !in ver
    ensures var v := VersionTail(ver, m, f);
      && IndexOfChar(v, '}') == |ver| && v[..|ver|] == ver
      && StartsWith(v[|ver| + 1..], " [") && v[|ver| + 3..] == NamesTail(m, f)
  {
    var v := VersionTail(ver, m, f);
    assert v == ver + ("} [" + NamesTail(m, f));
    assert v[|ver|] == '}';
    assert forall i :: 0 <= i < |ver| ==> v[i] == ver[i] && ver[i] != '}';
    assert v[|ver| + 1..] == " [" + NamesTail(m, f);
  }

  /** A status letter is never whitespace and never a brace. */
  lemma StatusNotSpace(c: char)
    requires IsStatusChar(c)
    ensures !IsSpace(c) && c != '{'
  {
  }

  /** Where the status run, the whitespace run and the search for the brace stop on a line
      described by positions: status letters before `n`, whitespace on `n..n + g`, a modid
      character at `n + g` and the first brace at `c`. */
  lemma HeadRuns(line: string, n: nat, g: nat, c: nat)
    requires 0 < n && 0 < g && n + g < c < |line|
    requires forall i :: 0 <= i < n ==> IsStatusChar(line[i])
    requires forall i :: n <= i < n + g ==> IsSpace(line[i])
    requires forall i :: n <= i < c ==> line[i] != '{'
    requires line[c] == '{'
    ensures StatusRun(line) == n
    ensures SpaceRun(line[n..]) >= g && (!IsSpace(line[n + g]) ==> SpaceRun(line[n..]) == g)
    ensures IndexOfChar(line[n..], '{') == c - n
  {
    assert !IsStatusChar(line[n]);
    var r := line[n..];
    assert forall i :: 0 <= i < |r| ==> r[i] == line[n + i];
    assert r[c - n] == '{';
  }

  /** MatchHead on a line described by positions as in HeadRuns, with a modid character that is
      neither a space nor a tab at `n + g`. */
  lemma HeadAt(line: string, n: nat, g: nat, c: nat)
    requires 0 < n && 0 < g && n + g < c < |line|
    requires forall i :: 0 <= i < n ==> IsStatusChar(line[i])
    requires forall i :: n <= i < n + g ==> IsSpace(line[i])
    requires line[n + g] != ' ' && line[n + g] != '\t'
    requires forall i :: n <= i < c ==> line[i] != '{'
    requires line[c] == '{'
    ensures MatchHead(line).Some? && MatchHead(line).value.3 == line[c + 1..]
    ensures !IsSpace(line[n + g]) ==>
      MatchHead(line) == Some((line[..n], line[n..n + g], line[n + g..c], line[c + 1..]))
  {
    HeadRuns(line, n, g, c);
    HeadModid(line, n, g, c);
    HeadFromRuns(line, n, g, c);
  }

  /** HeadAt once the status run, the whitespace run, the brace and the modid start are known. */
  lemma HeadFromRuns(line: string, n: nat, g: nat, c: nat)
    requires 0 < n && 0 < g && n + g < c < |line|
    requires StatusRun(line) == n && IndexOfChar(line[n..], '{') == c - n
    requires var r, w, b := line[n..], SpaceRun(line[n..]), c - n;
      && w >= g
      && ModidStart(r, if w < b - 1 then w else b - 1) >= g
      && (!IsSpace(line[n + g]) ==> ModidStart(r, if w < b - 1 then w else b - 1) == g)
    ensures MatchHead(line).Some? && MatchHead(line).value.3 == line[c + 1..]
    ensures !IsSpace(line[n + g]) ==>
      MatchHead(line) == Some((line[..n], line[n..n + g], line[n + g..c], line[c + 1..]))
  {
    var r := line[n..];
    var w := SpaceRun(r);
    var b := c - n;
    var k := ModidStart(r, if w < b - 1 then w else b - 1);
    MatchHeadOf(line, n, w, b, k);
    HeadSlices(line, r, n, g, b, c, k, MatchHead(line));
  }

  /** A decomposition `m` of `line` taken at `n`, `n + k` and `c`, read back as slices of
      `line` itself. */
  lemma HeadSlices(line: string, r: string, n: nat, g: nat, b: nat, c: nat, k: nat, m: Option<(string, string, string, string)>)
    requires n + g < |line| && k <= b && c == n + b && c < |line| && r == line[n..]
    requires !IsSpace(line[n + g]) ==> k == g
    requires m == Some((line[..n], r[..k], r[k..b], r[b + 1..]))
    ensures m.Some? && m.value.3 == line[c + 1..]
    ensures !IsSpace(line[n + g]) ==> m == Some((line[..n], line[n..n + g], line[n + g..c], line[c + 1..]))
  {
    SlicesOfRest(line, n, k, b);
  }

  /** MatchHead once the runs, the brace and the modid start are known and all allow a match. */
  lemma MatchHeadOf(line: string, n: nat, w: nat, b: nat, k: nat)
    requires n == StatusRun(line) && n > 0
    requires w == SpaceRun(line[n..]) && w > 0
    requires b == IndexOfChar(line[n..], '{') && 2 <= b < |line| - n
    requires k == ModidStart(line[n..], if w < b - 1 then w else b - 1) && k > 0
    ensures var r := line[n..]; MatchHead(line) == Some((line[..n], r[..k], r[k..b], r[b + 1..]))
  {
  }

  /** Where the modid starts: at `n + g` or, when the whitespace run is longer than `g`, later;
      exactly at `n + g` when the character there is not whitespace. */
  lemma HeadModid(line: string, n: nat, g: nat, c: nat)
    requires 0 < g && n + g < c < |line|
    requires line[n + g] != ' ' && line[n + g] != '\t'
    requires SpaceRun(line[n..]) >= g && (!IsSpace(line[n + g]) ==> SpaceRun(line[n..]) == g)
    ensures var r, w, b := line[n..], SpaceRun(line[n..]), c - n;
      && ModidStart(r, if w < b - 1 then w else b - 1) >= g
      && (!IsSpace(line[n + g]) ==> ModidStart(r, if w < b - 1 then w else b - 1) == g)
  {
    var r := line[n..];
    assert r[g] == line[n + g];
  }

  /** Slices of `line[n..]` are slices of `line`. */
  lemma SlicesOfRest(line: string, n: nat, k: nat, b: nat)
    requires n <= |line| && k <= b < |line| - n
    ensures var r := line[n..]; r[..k] == line[n..n + k] && r[k..b] == line[n + k..n + b] && r[b + 1..] == line[n + b + 1..]
  {
  }

  /** Every line that has a well-formed decomposition matches; when the modid does not begin with
      whitespace the status, modid and version are the ones the line was built from, and when the
      filename holds no `] (` the whole decomposition is. */
  lemma MatchLineComplete(g: Groups)
    requires WellFormed(g)
    ensures MatchLine(Render(g)).Some?
    ensures !IsSpace(g.modid[0]) ==>
      var h := MatchLine(Render(g)).value;
      h.status == g.status && h.gap == g.gap && h.modid == g.modid && h.version == g.version
    ensures !IsSpace(g.modid[0]) && !Contains(g.filename, Separator) ==> MatchLine(Render(g)) == Some(g)
  {
    RenderedHead(g);
    VersionComplete(g.version, g.modname, g.filename);
  }

  /** The head of a rendered line: MatchHead always reaches the rendered version tail, and finds
      the rendered status, gap and modid when the modid does not begin with whitespace. */
  lemma RenderedHead(g: Groups)
    requires WellFormed(g)
    ensures var tail := VersionTail(g.version, g.modname, g.filename);
      && MatchHead(Render(g)).Some? && MatchHead(Render(g)).value.3 == tail
      && (!IsSpace(g.modid[0]) ==> MatchHead(Render(g)) == Some((g.status, g.gap, g.modid, tail)))
  {
    var line := Render(g);
    var tail := VersionTail(g.version, g.modname, g.filename);
    var n, m := |g.status|, |g.gap|;
    var c := n + m + |g.modid|;
    Layout(line, g.status, g.gap, g.modid, tail, n, m, c);
    assert line[n + m] == g.modid[0];
    HeadAt(line, n, m, c);
  }

  /** Where each piece of `st + gap + id + "{" + tail` sits in the line: the gap at `n`, the modid
      at `n + m` and the brace at `c`. */
  lemma Layout(line: string, st: string, gap: string, id: string, tail: string, n: nat, m: nat, c: nat)
    requires line == st + gap + id + "{" + tail && n == |st| && m == |gap| && c == n + m + |id|
    ensures c < |line| && line[c] == '{'
    ensures forall i :: 0 <= i < n ==> line[i] == st[i]
    ensures forall i :: n <= i < n + m ==> line[i] == gap[i - n]
    ensures forall i :: n + m <= i < c ==> line[i] == id[i - n - m]
    ensures line[..n] == st && line[n..n + m] == gap && line[n + m..c] == id && line[c + 1..] == tail
  {
  }

  // ---------------------------------------------------------------------------------------------
  // What Parse makes of a line.

  /** A line is rejected (Python's ValueError) exactly when no well-formed decomposition spells it. */
  lemma ParseRejectsExactly(line: string)
    ensures Parse(line).NoMatch? <==> !exists g :: WellFormed(g) && Render(g) == line
  {
    if MatchLine(line).Some? {
      MatchedSpells(line);
    } else {
      UnmatchedSpellsNothing(line);
    }
  }

  lemma MatchedSpells(line: string)
    requires MatchLine(line).Some?
    ensures exists g :: WellFormed(g) && Render(g) == line
  {
    MatchLineSound(line);
    var g := MatchLine(line).value;
    assert WellFormed(g) && Render(g) == line;
  }

  lemma UnmatchedSpellsNothing(line: string)
    requires MatchLine(line).None?
    ensures forall g :: WellFormed(g) ==> Render(g) != line
  {
    forall g | WellFormed(g) ensures Render(g) != line {
      MatchLineComplete(g);
    }
  }

  /** The round trip: a line assembled from fields the pattern reads back unambiguously parses to
      exactly those fields, with the errored and disabled flags read from the status letters. */
  lemma ParseRoundTrip(g: Groups)
    requires WellFormed(g) && !IsSpace(g.modid[0]) && !Contains(g.filename, Separator)
    requires g.modid !in {"FML", "Forge"} && g.filename != "minecraft.jar"
    ensures Parse(Render(g)) == Record(InstalledMod(g.modid, g.version, g.modname, g.filename,
                                                    'E' in g.status, 'D' in g.status))
  {
    MatchLineComplete(g);
    ParseOf(Render(g), g);
  }

  /** The loader's own entries FML and Forge never give a record, whatever their other fields,
      the `minecraft.jar` filename included. */
  lemma ParsePseudoMod(g: Groups)
    requires WellFormed(g) && g.modid in {"FML", "Forge"}
    ensures Parse(Render(g)) == NoRecord
  {
    assert !IsSpace(g.modid[0]);
    MatchLineComplete(g);
    ParseOf(Render(g), MatchLine(Render(g)).value);
  }

  /** A mod packed in `minecraft.jar` gets its filename rebuilt as `<modid>-<version>.jar` when it
      is a known coremod, and gives no record otherwise. */
  lemma ParseCoremod(g: Groups)
    requires WellFormed(g) && !IsSpace(g.modid[0]) && g.filename == "minecraft.jar"
    ensures g.modid in Coremods ==>
      Parse(Render(g)) == Record(InstalledMod(g.modid, g.version, g.modname,
                                              g.modid + "-" + g.version + ".jar",
                                              'E' in g.status, 'D' in g.status))
    ensures g.modid !in Coremods ==> Parse(Render(g)) == NoRecord
  {
    ParseJar(g);
  }

  /** A `minecraft.jar` line is matched back to its own groups. */
  lemma ParseJar(g: Groups)
    requires WellFormed(g) && !IsSpace(g.modid[0]) && g.filename == "minecraft.jar"
    ensures Parse(Render(g)) == Interpret(g)
  {
    JarHasNoSeparator();
    MatchLineComplete(g);
    ParseOf(Render(g), g);
  }

  /** A line that matches is parsed by interpreting its groups. */
  lemma ParseOf(line: string, g: Groups)
    requires MatchLine(line) == Some(g)
    ensures Parse(line) == Interpret(g)
  {
  }
}
