/** `Helper.analyze` as specification functions: the lines the rule chain appends for one crash
    report, and the set difference against the official filename list. */
module Analysis {
  import opened Text
  import opened InstalledMods
  import opened CrashReports

  const NpeLine := "java.lang.NullPointerException"
  const FmlProxyLine :=
    "at cpw.mods.fml.common.network.internal.FMLProxyPacket.func_148833_a(FMLProxyPacket.java:101)"
  const ChunkIo := "ChunkIOProvider"
  const ChunkBuildFailed := "java.lang.RuntimeException: Chunk build failed"

  // The output texts below are the source's strings; the longer ones are written as two
  // concatenated pieces because the verifier reads the characters of a literal only up to about
  // forty of them, and the proofs that tell the lines apart look at their first characters.
  const TruncatedWarning := "CRASH REPORT IS TRUNCATED. " + "This will not help to get your problem fixed!!!"
  const UselessRemark := "This crash report is near useless. " + "Try post fml-client-latest.log instead."
  const CorruptionRemark := "This crash report suggests " + "world corruption. Try restore from a backup."
  const AngelicaHint :=
    "Possibly an Angelica problem. " + "Try remove this mod and see if this fixes your problem."
  const TraceOpen := "<details><summary>Stacktrace</summary>"
  const MissingOpen := "<details><summary>Missing mods</summary>"
  const AddedOpen := "<details><summary>Added mods</summary>"
  const DetailsClose := "</details>"

  function HeaderLine(url: string): string {
    "# Primitive Automated Analysis " + "of Crash Report " + url
  }

  function TraceBlock(trace: seq<string>): string {
    TraceOpen + Join(trace, "\n") + DetailsClose
  }

  // ---------------------------------------------------------------------------------------------
  // The early rules (entrypoint.py:352-369)

  /** The trace starts with the FMLProxyPacket null-pointer pair (`trace[:2] == [...]`). */
  predicate UselessNpe(trace: seq<string>) {
    |trace| >= 2 && trace[0] == NpeLine && trace[1] == FmlProxyLine
  }

  /** Some trace line mentions ChunkIOProvider. */
  predicate WorldCorruption(trace: seq<string>) {
    exists i :: 0 <= i < |trace| && Contains(trace[i], ChunkIo)
  }

  /** Where the analysis goes after the early rules: it returned, it raised (the empty trace at
      `main_stack_trace[0]`), or it goes on to the mod lists. */
  datatype Stage = Stopped | Raised | Proceed

  datatype Triage = Triage(lines: seq<string>, stage: Stage)

  /** The header, then the truncation warning when the report is truncated. */
  function Opening(url: string, truncated: bool): seq<string> {
    [HeaderLine(url)] + (if truncated then [TruncatedWarning] else [])
  }

  /** The lines the early rules append for a report with this URL, truncation flag and stack
      trace, in order, and the stage they leave the analysis in. */
  function Rules(url: string, truncated: bool, trace: seq<string>): (t: Triage)
    ensures |t.lines| >= 1 && t.lines[0] == HeaderLine(url)
    ensures Opening(url, truncated) <= t.lines
  {
    var open := Opening(url, truncated);
    if UselessNpe(trace) then Triage(open + [UselessRemark], Stopped)
    else if WorldCorruption(trace) then Triage(open + [CorruptionRemark], Stopped)
    else if trace == [] then Triage(open, Raised)
    else
      Triage(open + (if trace[0] == ChunkBuildFailed then [AngelicaHint] else []) + [TraceBlock(trace)],
             Proceed)
  }

  /** The early rules applied to a report. */
  function TriageOf(cr: CrashReport): Triage {
    Rules(cr.url, Truncated(cr.content), StackTrace(cr.content))
  }

  /** The rule order: the two terminal signatures are checked first and each adds its one remark
      and stops; otherwise an empty trace raises; otherwise the trace block closes the early lines,
      after the Angelica hint exactly when the trace starts with a failed chunk build. Whether the
      report is truncated plays no part in where the analysis goes. */
  lemma TriageRules(url: string, truncated: bool, trace: seq<string>)
    ensures var t, open := Rules(url, truncated, trace), Opening(url, truncated);
      && (t.stage == Stopped <==> UselessNpe(trace) || WorldCorruption(trace))
      && (t.stage == Raised <==> !UselessNpe(trace) && !WorldCorruption(trace) && trace == [])
      && (t.stage == Stopped ==> t.lines == open + [if UselessNpe(trace) then UselessRemark else CorruptionRemark])
      && (t.stage == Raised ==> t.lines == open)
      && (t.stage == Proceed ==> && t.lines[|t.lines| - 1] == TraceBlock(trace)
                                 && (AngelicaHint in t.lines <==> trace[0] == ChunkBuildFailed))
      && Rules(url, !truncated, trace).stage == t.stage
  {
    var t := Rules(url, truncated, trace);
    if t.stage == Proceed {
      LineHeads(url, trace);
    }
  }

  /** The first character of each line the early rules can append. */
  lemma LineHeads(url: string, trace: seq<string>)
    ensures HeaderLine(url)[0] == '#' && TraceBlock(trace)[0] == '<'
    ensures TruncatedWarning[0] == 'C' && UselessRemark[0] == 'T' && CorruptionRemark[0] == 'T'
    ensures AngelicaHint[0] == 'P'
  {
    assert TraceBlock(trace)[0] == TraceOpen[0];
  }

  /** The truncation warning is the second line exactly when the report is truncated, and is
      nowhere else. */
  lemma TruncationWarned(url: string, truncated: bool, trace: seq<string>)
    ensures var t := Rules(url, truncated, trace);
      && (TruncatedWarning in t.lines <==> truncated)
      && (truncated ==> t.lines[1] == TruncatedWarning)
  {
    var t, open := Rules(url, truncated, trace), Opening(url, truncated);
    var rest := t.lines[|open|..];
    RulesRest(url, truncated, trace);
    LineHeads(url, trace);
    assert t.lines == open + rest;
    assert HeaderLine(url) != TruncatedWarning;
  }

  /** No line the early rules append after the opening is the truncation warning. */
  lemma RulesRest(url: string, truncated: bool, trace: seq<string>)
    ensures var t, open := Rules(url, truncated, trace), Opening(url, truncated);
      TruncatedWarning !in t.lines[|open|..]
  {
    var t, open := Rules(url, truncated, trace), Opening(url, truncated);
    RulesAfterOpening(url, truncated, trace);
    assert t.lines[|open|..] == RemarkLines(trace);
    RemarksNotWarning(trace);
  }

  /** The lines the early rules append after the opening; they depend on the trace alone. */
  function RemarkLines(trace: seq<string>): seq<string> {
    if UselessNpe(trace) then [UselessRemark]
    else if WorldCorruption(trace) then [CorruptionRemark]
    else if trace == [] then []
    else (if trace[0] == ChunkBuildFailed then [AngelicaHint] else []) + [TraceBlock(trace)]
  }

  lemma RulesAfterOpening(url: string, truncated: bool, trace: seq<string>)
    ensures Rules(url, truncated, trace).lines == Opening(url, truncated) + RemarkLines(trace)
  {
    if !UselessNpe(trace) && !WorldCorruption(trace) && trace != [] {
      AppendTwice(Opening(url, truncated), if trace[0] == ChunkBuildFailed then [AngelicaHint] else [],
                  [TraceBlock(trace)]);
    }
  }

  lemma RemarksNotWarning(trace: seq<string>)
    ensures TruncatedWarning !in RemarkLines(trace)
  {
    LineHeads("", trace);
  }

  /** The stack-trace block gives back the trace: its body, split into lines, is the trace. */
  lemma TraceBlockRecovers(cr: CrashReport)
    requires TriageOf(cr).stage == Proceed
    ensures var block := TriageOf(cr).lines[|TriageOf(cr).lines| - 1];
      exists body :: block == TraceOpen + body + DetailsClose && SplitLines(body) == StackTrace(cr.content)
  {
    var trace := StackTrace(cr.content);
    StackTraceSpec(cr.content);
    SplitJoin(trace);
    TriageRules(cr.url, Truncated(cr.content), trace);
    assert TraceBlock(trace) == TraceOpen + Join(trace, "\n") + DetailsClose;
  }

  // ---------------------------------------------------------------------------------------------
  // The official filename list (entrypoint.py:341-349)

  const VersionField := "Your Pack Version"

  /** The version key: the first whitespace-separated token of "Your Pack Version", stripped and
      lower-cased; `None` when the field is missing or blank (the KeyError or IndexError that
      `get_mod_list` catches). */
  function VersionKey(formData: map<string, string>): Option<string> {
    if VersionField !in formData then None
    else
      match FirstToken(formData[VersionField])
      case None => None
      case Some(t) => Some(Lower(Strip(t)))
  }

  /** `get_mod_list`: the official filenames for the version and side, or nothing when the key
      cannot be read or the lookup fails. */
  function OfficialList(formData: map<string, string>, resolver: (string, Side) -> Option<seq<string>>,
                        side: Side): seq<string>
  {
    match VersionKey(formData)
    case None => []
    case Some(k) => if resolver(k, side).Some? then resolver(k, side).value else []
  }

  /** A field made of leading whitespace, a token and anything after whitespace gives that token,
      lower-cased; a missing or blank field gives no list at all. */
  lemma VersionKeyOf(formData: map<string, string>, lead: string, token: string, rest: string)
    requires VersionField in formData && formData[VersionField] == lead + token + rest
    requires forall k :: 0 <= k < |lead| ==> IsSpace(lead[k])
    requires token != [] && NoSpace(token) && (rest == [] || IsSpace(rest[0]))
    ensures VersionKey(formData) == Some(Lower(token))
  {
    FirstTokenOf(lead, token, rest);
    StripKeeps(token);
  }

  /** No version key, no list: a missing field, a blank field or a failed lookup all give []. */
  lemma OfficialListFails(formData: map<string, string>, resolver: (string, Side) -> Option<seq<string>>,
                          side: Side)
    ensures VersionField !in formData ==> OfficialList(formData, resolver, side) == []
    ensures (VersionField in formData && forall k :: 0 <= k < |formData[VersionField]| ==>
      IsSpace(formData[VersionField][k])) ==> OfficialList(formData, resolver, side) == []
    ensures VersionKey(formData).Some? && resolver(VersionKey(formData).value, side).None? ==>
      OfficialList(formData, resolver, side) == []
  {
    if VersionField in formData {
      FirstTokenSpec(formData[VersionField]);
    }
  }

  // ---------------------------------------------------------------------------------------------
  // The mod diff (entrypoint.py:373-395)

  /** The filenames of a mod list. */
  function FilenamesOf(mods: seq<InstalledMod>): set<string> {
    set i | 0 <= i < |mods| :: mods[i].filename
  }

  /** `{mod.filename: mod for mod in mods}`: later entries overwrite earlier ones. */
  function ModsByFilename(mods: seq<InstalledMod>): map<string, InstalledMod> {
    if mods == [] then map[]
    else ModsByFilename(mods[..|mods| - 1])[mods[|mods| - 1].filename := mods[|mods| - 1]]
  }

  /** The keys are the report's filenames. */
  lemma {:induction false} ModsByFilenameKeys(mods: seq<InstalledMod>)
    ensures ModsByFilename(mods).Keys == FilenamesOf(mods)
  {
    if mods != [] {
      var init := mods[..|mods| - 1];
      var last := mods[|mods| - 1];
      ModsByFilenameKeys(init);
      forall f | f in FilenamesOf(mods) ensures f in FilenamesOf(init) + {last.filename} {
        var i :| 0 <= i < |mods| && mods[i].filename == f;
        if i < |mods| - 1 {
          assert init[i] == mods[i];
        }
      }
      forall f | f in FilenamesOf(init) ensures f in FilenamesOf(mods) {
        var i :| 0 <= i < |init| && init[i].filename == f;
        assert mods[i] == init[i];
      }
    }
  }

  /** Each filename maps to the last entry of the list with that filename. */
  lemma {:induction false} LastEntryWins(mods: seq<InstalledMod>, f: string)
    requires f in ModsByFilename(mods)
    ensures exists i :: (0 <= i < |mods| && mods[i] == ModsByFilename(mods)[f]
      && mods[i].filename == f && forall j :: i < j < |mods| ==> mods[j].filename != f)
  {
    var init := mods[..|mods| - 1];
    var last := mods[|mods| - 1];
    if last.filename != f {
      LastEntryWins(init, f);
      var i :| 0 <= i < |init| && init[i] == ModsByFilename(init)[f]
        && init[i].filename == f && forall j :: i < j < |init| ==> init[j].filename != f;
      assert mods[i] == init[i];
      forall j | i < j < |mods| ensures mods[j].filename != f {
        if j < |mods| - 1 {
          assert mods[j] == init[j];
        }
      }
    }
  }

  function OfficialSet(official: seq<string>): set<string> {
    set f | f in official
  }

  /** Filenames the official list has and the report does not. */
  function Missing(official: seq<string>, mods: seq<InstalledMod>): set<string> {
    OfficialSet(official) - FilenamesOf(mods)
  }

  /** Filenames the report has and the official list does not. */
  function Added(official: seq<string>, mods: seq<InstalledMod>): set<string> {
    FilenamesOf(mods) - OfficialSet(official)
  }

  /** `order` lists the elements of `s`, each once: a possible iteration order of the set. */
  predicate Enumerates(order: seq<string>, s: set<string>) {
    && (forall i, j :: 0 <= i < j < |order| ==> order[i] != order[j])
    && (set x | x in order) == s
  }

  /** An enumeration of a subset of `keys` lists only keys. */
  lemma EnumeratedKeys(order: seq<string>, s: set<string>, keys: set<string>)
    requires Enumerates(order, s) && s <= keys
    ensures forall i :: 0 <= i < |order| ==> order[i] in keys
  {
    forall i | 0 <= i < |order| ensures order[i] in keys {
      assert order[i] in (set x | x in order);
    }
  }

  /** A missing filename is listed unless it names healer or CodeChickenLib (neither is visible in
      a report), or names lwjgl3ify while the Java version is not recent. */
  predicate Listed(filename: string, recent: bool) {
    var lower := Lower(filename);
    !Contains(lower, "healer") && !Contains(lower, "codechickenlib")
    && (recent || !Contains(lower, "lwjgl3ify"))
  }

  function Bullet(filename: string): string {
    "* " + filename
  }

  function AddedBullet(filename: string, mod: InstalledMod): string {
    "* " + filename + " (" + mod.modname + ")"
  }

  /** The bullets of the "Missing mods" block, in iteration order. */
  function MissingBullets(order: seq<string>, recent: bool): seq<string> {
    if order == [] then []
    else (if Listed(order[0], recent) then [Bullet(order[0])] else []) + MissingBullets(order[1..], recent)
  }

  /** The bullets of the "Added mods" block, in iteration order. */
  function AddedBullets(order: seq<string>, byName: map<string, InstalledMod>): seq<string>
    requires forall i :: 0 <= i < |order| ==> order[i] in byName
  {
    if order == [] then [] else [AddedBullet(order[0], byName[order[0]])] + AddedBullets(order[1..], byName)
  }

  /** Bullets accumulate as the set loop goes: one more filename adds at most its bullet at the end. */
  lemma {:induction false} MissingBulletsAppend(order: seq<string>, f: string, recent: bool)
    ensures MissingBullets(order + [f], recent)
      == MissingBullets(order, recent) + (if Listed(f, recent) then [Bullet(f)] else [])
  {
    var last := if Listed(f, recent) then [Bullet(f)] else [];
    if order == [] {
      assert order + [f] == [f];
      assert MissingBullets([f], recent) == last + MissingBullets([], recent);
    } else {
      var head := if Listed(order[0], recent) then [Bullet(order[0])] else [];
      assert (order + [f])[0] == order[0] && (order + [f])[1..] == order[1..] + [f];
      MissingBulletsAppend(order[1..], f, recent);
      AppendTwice(head, MissingBullets(order[1..], recent), last);
    }
  }

  lemma {:induction false} AddedBulletsAppend(order: seq<string>, f: string, byName: map<string, InstalledMod>)
    requires forall i :: 0 <= i < |order| ==> order[i] in byName
    requires f in byName
    ensures AddedBullets(order + [f], byName) == AddedBullets(order, byName) + [AddedBullet(f, byName[f])]
  {
    if order == [] {
      assert order + [f] == [f];
    } else {
      assert (order + [f])[0] == order[0] && (order + [f])[1..] == order[1..] + [f];
      AddedBulletsAppend(order[1..], f, byName);
      AppendTwice([AddedBullet(order[0], byName[order[0]])], AddedBullets(order[1..], byName),
                  [AddedBullet(f, byName[f])]);
    }
  }

  /** Some order in which a set can be iterated. */
  ghost function EnumerationOf(s: set<string>): (r: seq<string>)
    ensures Enumerates(r, s)
    decreases |s|
  {
    if s == {} then []
    else
      var x :| x in s;
      var rest := EnumerationOf(s - {x});
      assert (set y | y in [x] + rest) == {x} + (set y | y in rest);
      [x] + rest
  }

  /** The missing block and the added block, each present exactly when its set is non-empty. */
  function DiffLines(missingOrder: seq<string>, addedOrder: seq<string>, byName: map<string, InstalledMod>,
                     recent: bool): seq<string>
    requires forall i :: 0 <= i < |addedOrder| ==> addedOrder[i] in byName
  {
    (if missingOrder == [] then [] else [MissingOpen] + MissingBullets(missingOrder, recent) + [DetailsClose])
    + (if addedOrder == [] then [] else [AddedOpen] + AddedBullets(addedOrder, byName) + [DetailsClose])
  }

  /** The iteration orders used for the two set loops enumerate the missing and added sets. */
  predicate OrdersFit(cr: CrashReport, official: seq<string>, missingOrder: seq<string>, addedOrder: seq<string>) {
    var mods := ModList(cr.content);
    Enumerates(missingOrder, Missing(official, mods)) && Enumerates(addedOrder, Added(official, mods))
  }

  /** What `analyze` appends for one report and whether it raised, given the official list and
      the orders in which the two sets were iterated. */
  datatype Analyzed = Analyzed(lines: seq<string>, raised: bool)

  function AnalysisOf(cr: CrashReport, official: seq<string>, missingOrder: seq<string>, addedOrder: seq<string>)
    : (a: Analyzed)
    requires OrdersFit(cr, official, missingOrder, addedOrder)
    ensures TriageOf(cr).lines <= a.lines && a.lines[0] == HeaderLine(cr.url)
  {
    var t := TriageOf(cr);
    if t.stage != Proceed then Analyzed(t.lines, t.stage == Raised)
    else if official == [] then Analyzed(t.lines, false)
    else
      var mods := ModList(cr.content);
      var byName := ModsByFilename(mods);
      ModsByFilenameKeys(mods);
      EnumeratedKeys(addedOrder, Added(official, mods), byName.Keys);
      Analyzed(t.lines + DiffLines(missingOrder, addedOrder, byName, IsRecentJava(cr.content)), false)
  }

  /** An analysis that stops early, raises, or has no official list to compare with consists of
      the early lines alone. */
  lemma AnalysisOfStops(cr: CrashReport, official: seq<string>, missingOrder: seq<string>, addedOrder: seq<string>)
    requires OrdersFit(cr, official, missingOrder, addedOrder)
    requires TriageOf(cr).stage != Proceed || official == []
    ensures var t := TriageOf(cr);
      AnalysisOf(cr, official, missingOrder, addedOrder) == Analyzed(t.lines, t.stage == Raised)
  {
  }

  /** Otherwise the two blocks follow the early lines, and nothing raises. */
  lemma AnalysisOfProceeds(cr: CrashReport, official: seq<string>, missingOrder: seq<string>, addedOrder: seq<string>)
    requires OrdersFit(cr, official, missingOrder, addedOrder)
    requires TriageOf(cr).stage == Proceed && official != []
    requires forall i :: 0 <= i < |addedOrder| ==> addedOrder[i] in ModsByFilename(ModList(cr.content))
    ensures AnalysisOf(cr, official, missingOrder, addedOrder)
      == Analyzed(TriageOf(cr).lines + DiffLines(missingOrder, addedOrder, ModsByFilename(ModList(cr.content)),
                                                 IsRecentJava(cr.content)), false)
  {
  }

  /** No early line opens a diff block: the header starts with '#', the remarks with letters, and
      the stack-trace block differs from both block openings at the summary text. */
  lemma EarlyLinesOpenNoBlock(url: string, truncated: bool, trace: seq<string>)
    ensures var lines := Rules(url, truncated, trace).lines;
      MissingOpen !in lines && AddedOpen !in lines
  {
    RulesAfterOpening(url, truncated, trace);
    LineHeads(url, trace);
    var summary := |"<details><summary>"|;
    assert MissingOpen[0] == '<' && AddedOpen[0] == '<';
    assert TraceBlock(trace)[summary] == TraceOpen[summary] == 'S';
    assert MissingOpen[summary] == 'M' && AddedOpen[summary] == 'A';
  }

  /** Which diff blocks an analysis holds, and whether it raised: a block opens exactly when the
      early rules let the analysis go on, the official list is known and the block's set is not
      empty; only the empty-trace rule raises. */
  lemma AnalysisBlocks(cr: CrashReport, official: seq<string>, missingOrder: seq<string>, addedOrder: seq<string>)
    requires OrdersFit(cr, official, missingOrder, addedOrder)
    ensures var a, t, mods := AnalysisOf(cr, official, missingOrder, addedOrder), TriageOf(cr), ModList(cr.content);
      && (a.raised <==> t.stage == Raised)
      && (MissingOpen in a.lines <==> t.stage == Proceed && official != [] && Missing(official, mods) != {})
      && (AddedOpen in a.lines <==> t.stage == Proceed && official != [] && Added(official, mods) != {})
  {
    var t, mods := TriageOf(cr), ModList(cr.content);
    EarlyLinesOpenNoBlock(cr.url, Truncated(cr.content), StackTrace(cr.content));
    if t.stage == Proceed && official != [] {
      var byName := ModsByFilename(mods);
      ModsByFilenameKeys(mods);
      EnumeratedKeys(addedOrder, Added(official, mods), byName.Keys);
      DiffBlocks(missingOrder, addedOrder, byName, IsRecentJava(cr.content), Missing(official, mods),
                 Added(official, mods));
    }
  }

  /** The "Missing mods" block is present exactly when some official filename is missing, even
      when every missing filename is then filtered out; the same holds for the "Added mods" block. */
  lemma DiffBlocks(missingOrder: seq<string>, addedOrder: seq<string>, byName: map<string, InstalledMod>,
                   recent: bool, missing: set<string>, added: set<string>)
    requires Enumerates(missingOrder, missing) && Enumerates(addedOrder, added)
    requires forall i :: 0 <= i < |addedOrder| ==> addedOrder[i] in byName
    ensures var d := DiffLines(missingOrder, addedOrder, byName, recent);
      && (MissingOpen in d <==> missing != {})
      && (AddedOpen in d <==> added != {})
  {
    if missingOrder != [] {
      assert missingOrder[0] in missing;
    }
    if addedOrder != [] {
      assert addedOrder[0] in added;
    }
    BulletsOpenNoBlock(missingOrder, addedOrder, byName, recent);
  }

  /** No bullet opens a block. */
  lemma BulletsOpenNoBlock(missingOrder: seq<string>, addedOrder: seq<string>, byName: map<string, InstalledMod>,
                           recent: bool)
    requires forall i :: 0 <= i < |addedOrder| ==> addedOrder[i] in byName
    ensures var m, a := MissingBullets(missingOrder, recent), AddedBullets(addedOrder, byName);
      MissingOpen !in m && AddedOpen !in m && MissingOpen !in a && AddedOpen !in a
  {
    forall line | line in MissingBullets(missingOrder, recent) ensures line != MissingOpen && line != AddedOpen {
      MissingBulletShape(missingOrder, recent, line);
    }
    forall line | line in AddedBullets(addedOrder, byName) ensures line != MissingOpen && line != AddedOpen {
      AddedBulletShape(addedOrder, byName, line);
    }
  }

  lemma {:induction false} MissingBulletShape(order: seq<string>, recent: bool, line: string)
    requires line in MissingBullets(order, recent)
    ensures |line| > 0 && line[0] == '*'
  {
    if !(Listed(order[0], recent) && line == Bullet(order[0])) {
      MissingBulletShape(order[1..], recent, line);
    }
  }

  lemma {:induction false} AddedBulletShape(order: seq<string>, byName: map<string, InstalledMod>, line: string)
    requires forall i :: 0 <= i < |order| ==> order[i] in byName
    requires line in AddedBullets(order, byName)
    ensures |line| > 0 && line[0] == '*'
  {
    if line != AddedBullet(order[0], byName[order[0]]) {
      AddedBulletShape(order[1..], byName, line);
    }
  }

  /** A filename's bullet is in the missing block exactly when the filename is missing and
      listed. */
  lemma {:induction false} MissingBulletsSpec(order: seq<string>, recent: bool, f: string)
    ensures Bullet(f) in MissingBullets(order, recent) <==> f in order && Listed(f, recent)
  {
    if order != [] {
      MissingBulletsSpec(order[1..], recent, f);
      assert Bullet(order[0]) == Bullet(f) ==> order[0] == f by {
        if Bullet(order[0]) == Bullet(f) {
          assert Bullet(f)[2..] == f;
          assert Bullet(order[0])[2..] == order[0];
        }
      }
      assert f in order <==> f == order[0] || f in order[1..];
    }
  }

  /** The missing block holds nothing but bullets of listed filenames of the order. */
  lemma {:induction false} MissingBulletsOnly(order: seq<string>, recent: bool, line: string)
    requires line in MissingBullets(order, recent)
    ensures |line| >= 2 && line == Bullet(line[2..]) && line[2..] in order && Listed(line[2..], recent)
  {
    if Listed(order[0], recent) && line == Bullet(order[0]) {
      assert line[2..] == order[0];
    } else {
      MissingBulletsOnly(order[1..], recent, line);
    }
  }

  /** An order that lists each filename once gives each bullet once. */
  lemma {:induction false} MissingBulletsDistinct(order: seq<string>, recent: bool)
    requires forall i, j :: 0 <= i < j < |order| ==> order[i] != order[j]
    ensures var b := MissingBullets(order, recent); forall i, j :: 0 <= i < j < |b| ==> b[i] != b[j]
  {
    if order != [] {
      var rest := order[1..];
      DistinctTail(order);
      MissingBulletsDistinct(rest, recent);
      if Listed(order[0], recent) {
        MissingBulletsSpec(rest, recent, order[0]);
        DistinctCons(Bullet(order[0]), MissingBullets(rest, recent));
      }
    }
  }

  /** The tail of a list without repetitions has none, and lacks the head. */
  lemma DistinctTail(xs: seq<string>)
    requires xs != [] && forall i, j :: 0 <= i < j < |xs| ==> xs[i] != xs[j]
    ensures forall i, j :: 0 <= i < j < |xs| - 1 ==> xs[1..][i] != xs[1..][j]
    ensures xs[0] !in xs[1..]
  {
    forall k | 0 <= k < |xs| - 1 ensures xs[1..][k] != xs[0] {
      assert xs[1..][k] == xs[k + 1];
    }
  }

  /** A new head in front of a list without repetitions makes a list without repetitions. */
  lemma DistinctCons(h: string, xs: seq<string>)
    requires h !in xs && forall i, j :: 0 <= i < j < |xs| ==> xs[i] != xs[j]
    ensures var b := [h] + xs; forall i, j :: 0 <= i < j < |b| ==> b[i] != b[j]
  {
    var b := [h] + xs;
    forall i, j | 0 <= i < j < |b| ensures b[i] != b[j] {
      assert b[j] == xs[j - 1];
      if i > 0 {
        assert b[i] == xs[i - 1];
      }
    }
  }

  /** Healer and CodeChickenLib are never listed as missing; lwjgl3ify only with a recent Java. */
  lemma NeverListed(order: seq<string>, recent: bool, f: string)
    requires var lower := Lower(f);
      Contains(lower, "healer") || Contains(lower, "codechickenlib") || (!recent && Contains(lower, "lwjgl3ify"))
    ensures Bullet(f) !in MissingBullets(order, recent)
  {
    MissingBulletsSpec(order, recent, f);
  }

  /** Each added filename gets exactly one bullet, naming the mod of the last report entry with that
      filename. */
  lemma {:induction false} AddedBulletsSpec(order: seq<string>, byName: map<string, InstalledMod>)
    requires forall i :: 0 <= i < |order| ==> order[i] in byName
    ensures var b := AddedBullets(order, byName);
      |b| == |order| && forall i :: 0 <= i < |order| ==> b[i] == AddedBullet(order[i], byName[order[i]])
  {
    if order != [] {
      AddedBulletsSpec(order[1..], byName);
    }
  }

  /** Every listed filename has its bullet, naming the mod the map gives for it. */
  lemma {:induction false} AddedBulletIn(order: seq<string>, byName: map<string, InstalledMod>, f: string)
    requires forall i :: 0 <= i < |order| ==> order[i] in byName
    requires f in order
    ensures AddedBullet(f, byName[f]) in AddedBullets(order, byName)
  {
    if order[0] != f {
      AddedBulletIn(order[1..], byName, f);
    }
  }

  /** Every added filename's bullet names the mod of the last report entry with that filename. */
  lemma AddedBulletOfLastEntry(mods: seq<InstalledMod>, official: seq<string>, addedOrder: seq<string>, f: string)
    requires Enumerates(addedOrder, Added(official, mods))
    requires f in Added(official, mods)
    requires forall i :: 0 <= i < |addedOrder| ==> addedOrder[i] in ModsByFilename(mods)
    ensures exists i :: (0 <= i < |mods| && mods[i].filename == f
        && (forall j :: i < j < |mods| ==> mods[j].filename != f)
        && AddedBullet(f, mods[i]) in AddedBullets(addedOrder, ModsByFilename(mods)))
  {
    var byName := ModsByFilename(mods);
    assert f in addedOrder by {
      assert f in (set x | x in addedOrder);
    }
    AddedBulletIn(addedOrder, byName, f);
    LastEntryWins(mods, f);
  }

  /** Without the official list the analysis stops after the trace block. */
  lemma NoOfficialListNoDiff(cr: CrashReport, missingOrder: seq<string>, addedOrder: seq<string>)
    requires OrdersFit(cr, [], missingOrder, addedOrder)
    ensures AnalysisOf(cr, [], missingOrder, addedOrder) == Analyzed(TriageOf(cr).lines, TriageOf(cr).stage == Raised)
  {
  }
}
