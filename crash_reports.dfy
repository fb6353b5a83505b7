/** A crash report (`CrashReport`) and the views derived from its text: the main stack trace,
    the installed-mod table, the truncation flag, the Java version and the side. */
module CrashReports {
  import opened Text
  import opened InstalledMods

  /** A report is named by the URL it came from (or `inline N`) and holds its text. */
  datatype CrashReport = CrashReport(url: string, content: string)

  /** Two reports are the same report exactly when their URLs agree; their texts play no part
      (`__eq__` and `__hash__` both look at the URL only). */
  predicate SameReport(a: CrashReport, b: CrashReport) {
    a.url == b.url
  }

  /** Same-report is an equivalence that ignores the text. */
  lemma SameReportByUrl(a: CrashReport, b: CrashReport, c: CrashReport, text: string)
    ensures SameReport(a, CrashReport(a.url, text))
    ensures SameReport(a, b) ==> SameReport(b, a)
    ensures SameReport(a, b) && SameReport(b, c) ==> SameReport(a, c)
    ensures SameReport(a, b) <==> a.url == b.url
  {
  }

  // ---------------------------------------------------------------------------------------------
  // main_stack_trace

  /** The header of a crash report is six lines long; the trace starts after it. */
  const HeaderLines := 6

  /** Python's `lines[6:]`. */
  function Body(lines: seq<string>): (r: seq<string>)
    ensures |lines| <= HeaderLines ==> r == []
    ensures |lines| > HeaderLines ==> |r| == |lines| - HeaderLines
    ensures forall i :: 0 <= i < |r| ==> r[i] == lines[HeaderLines + i]
  {
    if |lines| <= HeaderLines then [] else lines[HeaderLines..]
  }

  /** Stripped lines up to, not including, the first one that is blank once stripped. */
  function TraceLines(lines: seq<string>): seq<string> {
    if lines == [] || Strip(lines[0]) == "" then []
    else [Strip(lines[0])] + TraceLines(lines[1..])
  }

  function StackTrace(content: string): seq<string> {
    TraceLines(Body(SplitLines(content)))
  }

  /** `main_stack_trace`: the loop that collects stripped lines after the header and stops at the
      first blank one. */
  method MainStackTrace(content: string) returns (trace: seq<string>)
    ensures trace == StackTrace(content)
  {
    var lines := SplitLines(content);
    var body := if |lines| <= HeaderLines then [] else lines[HeaderLines..];
    trace := [];
    var i := 0;
    while i < |body|
      invariant 0 <= i <= |body|
      invariant trace + TraceLines(body[i..]) == TraceLines(body)
    {
      var line := Strip(body[i]);
      assert body[i..][0] == body[i] && body[i..][1..] == body[i + 1..];
      if line == "" {
        assert TraceLines(body[i..]) == [];
        return;
      }
      assert TraceLines(body[i..]) == [line] + TraceLines(body[i + 1..]);
      AppendTwice(trace, [line], TraceLines(body[i + 1..]));
      trace := trace + [line];
      i := i + 1;
    }
  }

  /** What the trace is: the stripped lines, in order, up to the first line that is blank after
      stripping; every element is non-empty. */
  lemma TraceLinesSpec(lines: seq<string>)
    ensures var t := TraceLines(lines);
      && |t| <= |lines|
      && (forall i :: 0 <= i < |t| ==> t[i] == Strip(lines[i]) && t[i] != "")
      && (|t| < |lines| ==> Strip(lines[|t|]) == "")
  {
    TraceLinesElements(lines);
    TraceLinesStop(lines);
  }

  lemma TraceLinesElements(lines: seq<string>)
    ensures var t := TraceLines(lines);
      |t| <= |lines| && forall i :: 0 <= i < |t| ==> t[i] == Strip(lines[i]) && t[i] != ""
  {
    TraceLinesLength(lines);
    forall i | 0 <= i < |TraceLines(lines)| ensures TraceLines(lines)[i] == Strip(lines[i]) != "" {
      TraceLineAt(lines, i);
    }
  }

  lemma {:induction false} TraceLinesLength(lines: seq<string>)
    ensures |TraceLines(lines)| <= |lines|
  {
    if lines != [] && Strip(lines[0]) != "" {
      TraceLinesLength(lines[1..]);
    }
  }

  lemma {:induction false} TraceLineAt(lines: seq<string>, i: nat)
    requires i < |TraceLines(lines)|
    ensures i < |lines| && TraceLines(lines)[i] == Strip(lines[i]) != ""
  {
    var t := TraceLines(lines);
    assert lines != [] && Strip(lines[0]) != "";
    assert t == [Strip(lines[0])] + TraceLines(lines[1..]);
    if i > 0 {
      TraceLineAt(lines[1..], i - 1);
      assert lines[1..][i - 1] == lines[i];
    }
  }

  lemma {:induction false} TraceLinesStop(lines: seq<string>)
    ensures var t := TraceLines(lines); |t| < |lines| ==> Strip(lines[|t|]) == ""
  {
    if lines != [] && Strip(lines[0]) != "" {
      TraceLinesStop(lines[1..]);
      assert TraceLines(lines) == [Strip(lines[0])] + TraceLines(lines[1..]);
    }
  }

  /** Every element of the trace holds no line break and has no surrounding whitespace. */
  lemma TraceLinesClean(lines: seq<string>)
    requires forall i :: 0 <= i < |lines| ==> '\n' !in lines[i]
    ensures var t := TraceLines(lines);
      forall i :: 0 <= i < |t| ==> '\n' !in t[i] && Strip(t[i]) == t[i]
  {
    var t := TraceLines(lines);
    TraceLinesSpec(lines);
    forall i | 0 <= i < |t| ensures '\n' !in t[i] && Strip(t[i]) == t[i] {
      StripClean(lines[i]);
    }
  }

  lemma StripClean(s: string)
    requires '\n' !in s
    ensures '\n' !in Strip(s) && Strip(Strip(s)) == Strip(s)
  {
    StripSpec(s);
    StripKeeps(Strip(s));
    if '\n' in Strip(s) {
      StripChars(s, '\n');
    }
  }

  /** The trace of a report: the stripped lines from the seventh on, up to the first blank one. */
  lemma StackTraceSpec(content: string)
    ensures var lines, t := SplitLines(content), StackTrace(content);
      && (|lines| <= HeaderLines ==> t == [])
      && (|lines| > HeaderLines ==> |t| <= |lines| - HeaderLines)
      && (forall i :: 0 <= i < |t| ==> t[i] == Strip(lines[HeaderLines + i]) && t[i] != "")
      && (HeaderLines + |t| < |lines| ==> Strip(lines[HeaderLines + |t|]) == "")
      && (forall i :: 0 <= i < |t| ==> '\n' !in t[i] && Strip(t[i]) == t[i])
  {
    var lines := SplitLines(content);
    StackTraceLines(lines);
    TraceLinesClean(Body(lines));
  }

  /** The trace read from the lines after the header. */
  lemma StackTraceLines(lines: seq<string>)
    ensures var t := TraceLines(Body(lines));
      && (|lines| <= HeaderLines ==> t == [])
      && (|lines| > HeaderLines ==> |t| <= |lines| - HeaderLines)
      && (forall i :: 0 <= i < |t| ==> t[i] == Strip(lines[HeaderLines + i]) && t[i] != "")
      && (HeaderLines + |t| < |lines| ==> Strip(lines[HeaderLines + |t|]) == "")
  {
    TraceLinesSpec(Body(lines));
  }

  // ---------------------------------------------------------------------------------------------
  // mod_list

  const TableHeader := "States"

  /** The mod table read from `lines`; `inList` says whether the "States" header has been seen.
      A line holding "States" only switches the table on; within the table a line that does not
      match ends it, a line that gives no record is skipped. */
  function ModTable(lines: seq<string>, inList: bool): seq<InstalledMod> {
    if lines == [] then []
    else if Contains(lines[0], TableHeader) then ModTable(lines[1..], true)
    else if !inList then ModTable(lines[1..], false)
    else
      match Parse(Strip(lines[0]))
      case NoMatch => []
      case NoRecord => ModTable(lines[1..], true)
      case Record(m) => [m] + ModTable(lines[1..], true)
  }

  function ModList(content: string): seq<InstalledMod> {
    ModTable(SplitLines(content), false)
  }

  /** `mod_list`: the loop with its `in_list` flag that stops at the first line of the table that
      does not match. */
  method ModListOf(content: string) returns (mods: seq<InstalledMod>)
    ensures mods == ModList(content)
  {
    var lines := SplitLines(content);
    var inList := false;
    mods := [];
    var i := 0;
    while i < |lines|
      invariant 0 <= i <= |lines|
      invariant mods + ModTable(lines[i..], inList) == ModList(content)
    {
      if Contains(lines[i], TableHeader) || !inList {
        TableSkip(lines, i, inList);
        inList := inList || Contains(lines[i], TableHeader);
      } else {
        var parsed := Parse(Strip(lines[i]));
        TableRow(lines, i, parsed);
        if parsed.NoMatch? {
          break;
        }
        if parsed.Record? {
          AppendTwice(mods, [parsed.mod], ModTable(lines[i + 1..], true));
          mods := mods + [parsed.mod];
        }
      }
      i := i + 1;
    }
  }

  /** A `States` line switches the table on; outside the table other lines are passed over. */
  lemma TableSkip(lines: seq<string>, i: nat, inList: bool)
    requires i < |lines| && (Contains(lines[i], TableHeader) || !inList)
    ensures ModTable(lines[i..], inList) == ModTable(lines[i + 1..], inList || Contains(lines[i], TableHeader))
  {
    assert lines[i..][0] == lines[i] && lines[i..][1..] == lines[i + 1..];
  }

  /** A line inside the table ends it, is skipped, or gives a record, as `parse` decides. */
  lemma TableRow(lines: seq<string>, i: nat, parsed: ParseOutcome)
    requires i < |lines| && !Contains(lines[i], TableHeader) && parsed == Parse(Strip(lines[i]))
    ensures parsed.NoMatch? ==> ModTable(lines[i..], true) == []
    ensures parsed.NoRecord? ==> ModTable(lines[i..], true) == ModTable(lines[i + 1..], true)
    ensures parsed.Record? ==> ModTable(lines[i..], true) == [parsed.mod] + ModTable(lines[i + 1..], true)
  {
    assert lines[i..][0] == lines[i] && lines[i..][1..] == lines[i + 1..];
  }

  /** The records a run of table lines gives when none of them ends the table. */
  function RecordsOf(lines: seq<string>): seq<InstalledMod> {
    if lines == [] then []
    else
      var here := if Contains(lines[0], TableHeader) then []
                  else match Parse(Strip(lines[0]))
                       case Record(m) => [m]
                       case _ => [];
      here + RecordsOf(lines[1..])
  }

  /** No line up to and including the first "States" line is parsed. */
  lemma {:induction false} TableStartsAfterHeader(pre: seq<string>, header: string, post: seq<string>)
    requires forall i :: 0 <= i < |pre| ==> !Contains(pre[i], TableHeader)
    requires Contains(header, TableHeader)
    ensures ModTable(pre + [header] + post, false) == ModTable(post, true)
  {
    if pre != [] {
      assert (pre + [header] + post)[1..] == pre[1..] + [header] + post;
      TableStartsAfterHeader(pre[1..], header, post);
    } else {
      assert ([header] + post)[1..] == post;
    }
  }

  /** Without a "States" line there is no table. */
  lemma {:induction false} NoHeaderNoTable(lines: seq<string>)
    requires forall i :: 0 <= i < |lines| ==> !Contains(lines[i], TableHeader)
    ensures ModTable(lines, false) == []
  {
    if lines != [] {
      NoHeaderNoTable(lines[1..]);
    }
  }

  /** Inside the table, the records are those of the lines before the first line that does not
      match, in order; that line and everything after it are left out, and a later "States" line
      is skipped rather than parsed. */
  lemma {:induction false} TableEndsAtMismatch(good: seq<string>, bad: string, rest: seq<string>)
    requires forall i :: 0 <= i < |good| ==>
      Contains(good[i], TableHeader) || !Parse(Strip(good[i])).NoMatch?
    requires !Contains(bad, TableHeader) && Parse(Strip(bad)).NoMatch?
    ensures ModTable(good + [bad] + rest, true) == RecordsOf(good)
  {
    if good != [] {
      assert (good + [bad] + rest)[1..] == good[1..] + [bad] + rest;
      TableEndsAtMismatch(good[1..], bad, rest);
    }
  }

  /** A table that never hits a mismatching line gives the records of all its lines. */
  lemma {:induction false} TableToEnd(lines: seq<string>)
    requires forall i :: 0 <= i < |lines| ==>
      Contains(lines[i], TableHeader) || !Parse(Strip(lines[i])).NoMatch?
    ensures ModTable(lines, true) == RecordsOf(lines)
  {
    if lines != [] {
      TableToEnd(lines[1..]);
    }
  }

  // ---------------------------------------------------------------------------------------------
  // truncated

  const CompletenessMarker := "Is Modded"

  /** A report without "Is Modded" is cut short. */
  predicate Truncated(content: string) {
    !Contains(content, CompletenessMarker)
  }

  /** Appending the marker to any text makes it complete; dropping text can only truncate. */
  lemma TruncatedByMarker(content: string, extra: string)
    ensures !Truncated(content + CompletenessMarker)
    ensures Truncated(content + extra) ==> Truncated(content)
  {
    assert IsAt(content + CompletenessMarker, CompletenessMarker, |content|);
    if !Truncated(content) {
      var i: nat :| IsAt(content, CompletenessMarker, i);
      assert (content + extra)[i..i + |CompletenessMarker|] == content[i..i + |CompletenessMarker|];
      assert IsAt(content + extra, CompletenessMarker, i);
    }
  }

  // ---------------------------------------------------------------------------------------------
  // java_version

  const JavaLabel := "Java Version: "

  /** The first index at or after `i` holding whitespace, or `|s|`. */
  function NonSpaceEnd(s: string, i: nat): (e: nat)
    requires i <= |s|
    ensures i <= e <= |s|
    ensures forall k :: i <= k < e ==> !IsSpace(s[k])
    ensures e < |s| ==> IsSpace(s[e])
    decreases |s| - i
  {
    if i == |s| || IsSpace(s[i]) then i else NonSpaceEnd(s, i + 1)
  }

  /** The largest index in `lo..hi` holding a comma, or -1. */
  function LastComma(s: string, lo: nat, hi: nat): (p: int)
    requires hi <= |s|
    ensures p == -1 || (lo <= p < hi && s[p] == ',')
    ensures forall k :: (if p == -1 then lo else p + 1) <= k < hi ==> s[k] != ','
    decreases hi
  {
    if hi <= lo then -1
    else if s[hi - 1] == ',' then hi - 1
    else LastComma(s, lo, hi - 1)
  }

  /** `Java Version: (\S+),` matched at index `i`: the greedy `\S+` runs to the end of the
      non-space run and gives back characters until a comma follows. */
  function VersionAt(s: string, i: nat): Option<string> {
    if !IsAt(s, JavaLabel, i) then None
    else
      var start := i + |JavaLabel|;
      var p := LastComma(s, start + 1, NonSpaceEnd(s, start));
      if p == -1 then None else Some(s[start..p])
  }

  function VersionFrom(s: string, i: nat): (r: Option<string>)
    ensures r.Some? ==> exists j: nat :: i <= j && VersionAt(s, j) == r
    ensures r.None? ==> forall j: nat :: i <= j ==> VersionAt(s, j).None?
    decreases |s| - i
  {
    if i > |s| then None
    else if VersionAt(s, i).Some? then VersionAt(s, i)
    else VersionFrom(s, i + 1)
  }

  /** `java_version`: the group of the first match of `Java Version: (\S+),`, if any. */
  function JavaVersion(content: string): Option<string> {
    VersionFrom(content, 0)
  }

  /** A match at `i` is the label, a non-empty version without whitespace, and a comma. */
  lemma VersionAtSound(s: string, i: nat)
    requires VersionAt(s, i).Some?
    ensures var v := VersionAt(s, i).value; v != [] && NoSpace(v) && IsAt(s, JavaLabel + v + ",", i)
  {
    var start := i + |JavaLabel|;
    var p := LastComma(s, start + 1, NonSpaceEnd(s, start));
    var v := s[start..p];
    assert s[i..p + 1] == s[i..start] + v + [s[p]];
  }

  /** Wherever the label, a non-empty version without whitespace and a comma stand, there is a
      match; it reads back that version when whitespace or the end of the text follows the comma. */
  lemma VersionAtComplete(s: string, i: nat, v: string)
    requires v != [] && NoSpace(v) && IsAt(s, JavaLabel + v + ",", i)
    ensures VersionAt(s, i).Some?
    ensures var e := i + |JavaLabel| + |v| + 1; (e == |s| || IsSpace(s[e])) ==> VersionAt(s, i) == Some(v)
  {
    var start := i + |JavaLabel|;
    var lit := JavaLabel + v + ",";
    assert s[i..i + |lit|] == lit;
    assert IsAt(s, JavaLabel, i) by {
      assert s[i..start] == lit[..|JavaLabel|];
    }
    assert forall k :: start <= k < start + |v| ==> s[k] == v[k - start];
    assert s[start + |v|] == ',';
    var e := NonSpaceEnd(s, start);
    assert e > start + |v|;
    var p := LastComma(s, start + 1, e);
    assert p >= start + |v|;
    if start + |v| + 1 == |s| || IsSpace(s[start + |v| + 1]) {
      assert e == start + |v| + 1;
      assert s[start..p] == v;
    }
  }

  /** The version read is the first match in the text. */
  lemma JavaVersionSpec(content: string)
    ensures var r := JavaVersion(content);
      r.Some? ==> (r.value != [] && NoSpace(r.value)
        && exists i: nat :: IsAt(content, JavaLabel + r.value + ",", i))
  {
    var r := JavaVersion(content);
    if r.Some? {
      var j: nat :| VersionAt(content, j) == r;
      VersionAtSound(content, j);
    }
  }

  /** A report whose first "Java Version: " label is followed by a version, a comma and
      whitespace (or the end) reports that version; any label-version-comma at all gives some
      version. */
  lemma JavaVersionOf(pre: string, v: string, post: string)
    requires v != [] && NoSpace(v) && (post == [] || IsSpace(post[0]))
    requires forall j: nat :: j < |pre| ==> !IsAt(pre + JavaLabel + v + "," + post, JavaLabel, j)
    ensures JavaVersion(pre + JavaLabel + v + "," + post) == Some(v)
  {
    var s := pre + JavaLabel + v + "," + post;
    var lit := JavaLabel + v + ",";
    assert s == pre + lit + post;
    assert s[|pre|..|pre| + |lit|] == lit;
    VersionAtComplete(s, |pre|, v);
    VersionFromSkips(s, 0, |pre|);
  }

  lemma {:induction false} VersionFromSkips(s: string, i: nat, j: nat)
    requires i <= j <= |s| && VersionAt(s, j).Some?
    requires forall k: nat :: i <= k < j ==> !IsAt(s, JavaLabel, k)
    ensures VersionFrom(s, i) == VersionAt(s, j)
    decreases j - i
  {
    if i < j {
      assert VersionAt(s, i).None?;
      VersionFromSkips(s, i + 1, j);
    }
  }

  // ---------------------------------------------------------------------------------------------
  // side, is_java8, is_recent_java

  datatype Side = Client | ClientJava9 | Server | ServerJava9 | Both

  const ClientMarker := "map_client.txt"
  const ServerMarker := "map_server.txt"

  /** `is_recent_java`: a version is known and does not start with "1." (Java 9 and later dropped
      the leading "1."). */
  predicate IsRecentJava(content: string) {
    JavaVersion(content).Some? && !StartsWith(JavaVersion(content).value, "1.")
  }

  /** `is_java8`: a version is known and starts with "1.8.0". */
  predicate IsJava8(content: string) {
    JavaVersion(content).Some? && StartsWith(JavaVersion(content).value, "1.8.0")
  }

  /** Java 8 is never recent. */
  lemma Java8NotRecent(content: string)
    ensures IsJava8(content) ==> !IsRecentJava(content)
  {
    if IsJava8(content) {
      LongerPrefix(JavaVersion(content).value);
    }
  }

  lemma LongerPrefix(v: string)
    requires StartsWith(v, "1.8.0")
    ensures StartsWith(v, "1.")
  {
    assert v[..2] == v[..5][..2];
  }

  /** `side`: the client marker wins over the server marker; each picks its Java 9 variant when the
      Java version is recent; with neither marker the side is undetermined. */
  function SideOf(content: string): (r: Side)
    ensures (r == Client || r == ClientJava9) <==> Contains(content, ClientMarker)
    ensures (r == Server || r == ServerJava9) <==>
      !Contains(content, ClientMarker) && Contains(content, ServerMarker)
    ensures r == Both <==> !Contains(content, ClientMarker) && !Contains(content, ServerMarker)
    ensures (r == ClientJava9 || r == ServerJava9) <==> r != Both && IsRecentJava(content)
  {
    if Contains(content, ClientMarker) then
      if IsRecentJava(content) then ClientJava9 else Client
    else if Contains(content, ServerMarker) then
      if IsRecentJava(content) then ServerJava9 else Server
    else Both
  }
}
