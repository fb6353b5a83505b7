/** What `_search_section` finds in one section of the issue form: a crash report pasted inline,
    and the reports behind the links, each URL visited once per section. */
module Sections {
  import opened Text
  import opened CrashReports
  import opened Links

  const ReportMarker := "---- Minecraft Crash Report ----"

  // ---------------------------------------------------------------------------------------------
  // The inline report (entrypoint.py:277-285)

  /** The section holds both the report marker and "Is Modded". */
  predicate HasInline(data: string) {
    Contains(data, ReportMarker) && Contains(data, CompletenessMarker)
  }

  /** `istart`, the first report marker. */
  function InlineStart(data: string): (i: nat)
    requires HasInline(data)
    ensures IsAt(data, ReportMarker, i)
    ensures forall j: nat :: j < i ==> !IsAt(data, ReportMarker, j)
  {
    Find(data, ReportMarker, 0)
  }

  /** `iend`: the newline after the first "Is Modded" at or after `istart`, or the end of the text.
      When "Is Modded" occurs only before the marker, `find` returns -1 and the newline search starts
      at -1, that is at the last character. */
  function InlineEnd(data: string): nat
    requires HasInline(data)
  {
    var modded := Find(data, CompletenessMarker, InlineStart(data));
    var nl := Find(data, "\n", modded);
    if nl == -1 then |data| else nl
  }

  /** The characters of an occurrence of `sub` are those of `sub`. */
  lemma OccurrenceChars(data: string, sub: string, i: nat)
    requires IsAt(data, sub, i)
    ensures forall k :: i <= k < i + |sub| ==> data[k] == sub[k - i]
  {
    forall k | i <= k < i + |sub| ensures data[k] == sub[k - i] {
      assert data[i..i + |sub|][k - i] == data[k];
    }
  }

  /** Neither marker holds a line break; the report marker holds no 'I'. */
  lemma MarkerChars()
    ensures forall k :: 0 <= k < |ReportMarker| ==> ReportMarker[k] != '\n' && ReportMarker[k] != 'I'
    ensures forall k :: 0 <= k < |CompletenessMarker| ==> CompletenessMarker[k] != '\n'
    ensures CompletenessMarker[0] == 'I'
  {
  }

  /** The report marker holds no 'I', so "Is Modded" never overlaps it. */
  lemma ModdedAfterMarker(data: string, istart: nat, m: nat)
    requires IsAt(data, ReportMarker, istart) && IsAt(data, CompletenessMarker, m) && istart <= m
    ensures istart + |ReportMarker| <= m
  {
    OccurrenceChars(data, ReportMarker, istart);
    OccurrenceChars(data, CompletenessMarker, m);
    MarkerChars();
  }

  /** An occurrence of a text without line breaks holds none. */
  lemma NoBreakIn(data: string, sub: string, i: nat)
    requires IsAt(data, sub, i)
    requires forall k :: 0 <= k < |sub| ==> sub[k] != '\n'
    ensures forall k :: i <= k < i + |sub| ==> data[k] != '\n'
  {
    OccurrenceChars(data, sub, i);
  }

  /** The first line break at or after the normalised `start`, or the end of the text. */
  lemma NewlineAfter(data: string, start: int, nl: int)
    requires nl == Find(data, "\n", start)
    ensures nl != -1 ==> PyStart(|data|, start) <= nl < |data| && data[nl] == '\n'
    ensures forall k :: PyStart(|data|, start) <= k < (if nl == -1 then |data| else nl) ==> data[k] != '\n'
  {
    var from := PyStart(|data|, start);
    if nl != -1 {
      OccurrenceChars(data, "\n", nl);
    }
    forall k | from <= k < (if nl == -1 then |data| else nl) ensures data[k] != '\n' {
      assert !IsAt(data, "\n", k);
      assert data[k..k + 1] == [data[k]];
    }
  }

  /** The span always starts with the marker and ends no later than the text. */
  lemma InlineSpanBounds(data: string)
    requires HasInline(data)
    ensures InlineStart(data) + |ReportMarker| <= InlineEnd(data) <= |data|
  {
    var istart := InlineStart(data);
    var modded := Find(data, CompletenessMarker, istart);
    var nl := Find(data, "\n", modded);
    NewlineAfter(data, modded, nl);
    MarkerChars();
    if modded == -1 {
      NoBreakIn(data, ReportMarker, istart);
      assert PyStart(|data|, modded) == |data| - 1;
    } else {
      ModdedAfterMarker(data, istart, modded);
      NoBreakIn(data, CompletenessMarker, modded);
    }
  }

  /** `cr_data[istart:iend]`. */
  function InlineText(data: string): (t: string)
    requires HasInline(data)
    ensures StartsWith(t, ReportMarker)
  {
    InlineSpanBounds(data);
    SliceStartsWith(data, InlineStart(data), InlineEnd(data), ReportMarker);
    data[InlineStart(data)..InlineEnd(data)]
  }

  /** A slice that begins at an occurrence of `sub` and holds all of it starts with `sub`. */
  lemma SliceStartsWith(data: string, lo: nat, hi: nat, sub: string)
    requires lo + |sub| <= hi <= |data| && IsAt(data, sub, lo)
    ensures StartsWith(data[lo..hi], sub)
  {
    assert data[lo..hi][..|sub|] == data[lo..lo + |sub|];
  }

  /** An occurrence inside a slice is an occurrence in the whole text, and back. */
  lemma SliceOccurrence(data: string, lo: nat, hi: nat, sub: string, p: nat)
    requires lo <= hi <= |data|
    ensures IsAt(data[lo..hi], sub, p) ==> IsAt(data, sub, lo + p)
    ensures lo + p + |sub| <= hi && IsAt(data, sub, lo + p) ==> IsAt(data[lo..hi], sub, p)
  {
    if p + |sub| <= hi - lo {
      var x := data[lo..hi];
      var y, z := x[p..p + |sub|], data[lo + p..lo + p + |sub|];
      forall k | 0 <= k < |sub| ensures y[k] == z[k] {
        assert x[p + k] == data[lo + p + k];
      }
      assert y == z;
    }
  }

  /** When "Is Modded" occurs only before the marker, the report runs to the end of the text, less
      a final line break, and is truncated. */
  lemma InlineTextUnmodded(data: string)
    requires HasInline(data)
    requires forall m: nat :: InlineStart(data) <= m ==> !IsAt(data, CompletenessMarker, m)
    ensures InlineEnd(data) == (if data[|data| - 1] == '\n' then |data| - 1 else |data|)
    ensures Truncated(InlineText(data))
  {
    var istart, iend := InlineStart(data), InlineEnd(data);
    InlineSpanBounds(data);
    var modded := Find(data, CompletenessMarker, istart);
    assert modded == -1;
    assert PyStart(|data|, modded) == |data| - 1;
    if data[|data| - 1] == '\n' {
      assert IsAt(data, "\n", |data| - 1);
    } else {
      assert !IsAt(data, "\n", |data| - 1);
    }
    var t := InlineText(data);
    if !Truncated(t) {
      var p: nat :| IsAt(t, CompletenessMarker, p);
      SliceOccurrence(data, istart, iend, CompletenessMarker, p);
      assert false;
    }
  }

  /** When "Is Modded" follows the marker, the report runs to the end of the line holding the first
      such "Is Modded" (or to the end of the text), and is complete. */
  lemma InlineTextComplete(data: string, m: nat)
    requires HasInline(data)
    requires InlineStart(data) <= m && IsAt(data, CompletenessMarker, m)
    requires forall j: nat :: InlineStart(data) <= j < m ==> !IsAt(data, CompletenessMarker, j)
    ensures var iend := InlineEnd(data);
      && m + |CompletenessMarker| <= iend
      && (iend == |data| || data[iend] == '\n')
      && (forall k :: m <= k < iend ==> data[k] != '\n')
      && !Truncated(InlineText(data))
  {
    InlineEndAt(data, m);
    var istart, iend := InlineStart(data), InlineEnd(data);
    InlineSpanBounds(data);
    ModdedAfterMarker(data, istart, m);
    SliceHoldsMarker(data, istart, iend, m);
  }

  /** A slice around an occurrence of "Is Modded" is not truncated. */
  lemma SliceHoldsMarker(data: string, lo: nat, hi: nat, m: nat)
    requires lo <= m && m + |CompletenessMarker| <= hi <= |data| && IsAt(data, CompletenessMarker, m)
    ensures !Truncated(data[lo..hi])
  {
    SliceOccurrence(data, lo, hi, CompletenessMarker, m - lo);
    assert IsAt(data[lo..hi], CompletenessMarker, m - lo);
  }

  /** Where the report ends when the first "Is Modded" after the marker is at `m`. */
  lemma InlineEndAt(data: string, m: nat)
    requires HasInline(data)
    requires InlineStart(data) <= m && IsAt(data, CompletenessMarker, m)
    requires forall j: nat :: InlineStart(data) <= j < m ==> !IsAt(data, CompletenessMarker, j)
    ensures var iend := InlineEnd(data);
      && m + |CompletenessMarker| <= iend
      && (iend == |data| || data[iend] == '\n')
      && (forall k :: m <= k < iend ==> data[k] != '\n')
  {
    var istart := InlineStart(data);
    var modded := Find(data, CompletenessMarker, istart);
    assert modded == m;
    var nl := Find(data, "\n", m);
    NewlineAfter(data, m, nl);
    MarkerChars();
    NoBreakIn(data, CompletenessMarker, m);
  }

  /** The loop's next search starts at `istart` itself and finds the same marker again, so
      `istart` never changes and the loop does not end. */
  lemma InlineSearchStalls(data: string)
    requires HasInline(data)
    ensures Find(data, ReportMarker, InlineStart(data)) == InlineStart(data)
  {
    FindAtMatch(data, ReportMarker, InlineStart(data));
  }

  // ---------------------------------------------------------------------------------------------
  // Linked reports (entrypoint.py:286-338)

  /** What a download returns: the HTTP status and the body text. */
  datatype Response = Response(status: int, text: string)

  /** What one link adds: possibly a report, possibly a line of output. */
  datatype Outcome = Outcome(report: Option<CrashReport>, line: Option<string>)

  function FailedLine(target: string, url: string): string {
    "Failed to download url: " + target + ". Original file link: " + url
  }

  /** A whitelisted link whose download answers 200 with a text that starts with the marker. */
  predicate GivesReport(l: Link, fetch: string -> Response) {
    && Classify(l).Download? && Classify(l).target != ""
    && fetch(Classify(l).target).status == 200
    && StartsWith(fetch(Classify(l).target).text, ReportMarker)
  }

  /** A whitelisted link whose download does not answer 200. */
  predicate DownloadFails(l: Link, fetch: string -> Response) {
    Classify(l).Download? && Classify(l).target != "" && fetch(Classify(l).target).status != 200
  }

  /** One visited link: the refusal line for paste.ubuntu.com, the failure line for a download that
      does not answer 200, a report for a download that starts with the marker, nothing otherwise
      (other hosts, malformed links, and texts such as a log file). */
  function Visit(l: Link, fetch: string -> Response): (o: Outcome)
    ensures o.report.Some? ==>
      && Classify(l) == Download(o.report.value.url)
      && fetch(o.report.value.url).status == 200
      && o.report.value.content == fetch(o.report.value.url).text
      && StartsWith(o.report.value.content, ReportMarker)
    ensures o.line.Some? ==> o.report.None?
    ensures l.hostname == Ubuntu ==> o.line == Some(UbuntuRefusal)
    ensures o.line.Some? && l.hostname != Ubuntu ==>
      Classify(l).Download? && fetch(Classify(l).target).status != 200
      && o.line.value == FailedLine(Classify(l).target, l.url)
    ensures o.report.Some? <==> GivesReport(l, fetch)
    ensures GivesReport(l, fetch) ==>
      o.report == Some(CrashReport(Classify(l).target, fetch(Classify(l).target).text))
    ensures DownloadFails(l, fetch) ==> o.line == Some(FailedLine(Classify(l).target, l.url))
    ensures o.line.Some? <==> l.hostname == Ubuntu || DownloadFails(l, fetch)
    ensures !Classify(l).Download? && l.hostname != Ubuntu ==> o == Outcome(None, None)
  {
    match Classify(l)
    case UbuntuRefused => Outcome(None, Some(UbuntuRefusal))
    case Download(t) =>
      if t == "" then Outcome(None, None)
      else
        var resp := fetch(t);
        if resp.status != 200 then Outcome(None, Some(FailedLine(t, l.url)))
        else if StartsWith(resp.text, ReportMarker) then Outcome(Some(CrashReport(t, resp.text)), None)
        else Outcome(None, None)
    case _ => Outcome(None, None)
  }

  /** The URLs of a list of links. */
  function Urls(links: seq<Link>): set<string> {
    set i | 0 <= i < |links| :: links[i].url
  }

  /** The links visited when `seen` holds the URLs already visited: each URL once, at its first
      occurrence. */
  function Dedup(links: seq<Link>, seen: set<string>): seq<Link> {
    if links == [] then []
    else if links[0].url in seen then Dedup(links[1..], seen)
    else [links[0]] + Dedup(links[1..], seen + {links[0].url})
  }

  /** The URLs of a list with one more link in front. */
  lemma UrlsCons(l: Link, rest: seq<Link>)
    ensures Urls([l] + rest) == {l.url} + Urls(rest)
  {
    var links := [l] + rest;
    forall u | u in Urls(links) ensures u in {l.url} + Urls(rest) {
      var i :| 0 <= i < |links| && links[i].url == u;
      if i > 0 {
        assert rest[i - 1] == links[i];
      } else {
        assert links[0] == l;
      }
    }
    forall u | u in Urls(rest) ensures u in Urls(links) {
      var i :| 0 <= i < |rest| && rest[i].url == u;
      assert links[i + 1] == rest[i];
    }
    assert links[0] == l;
  }

  /** The visited URLs are those of the links, less the ones already seen. */
  lemma {:induction false} DedupUrls(links: seq<Link>, seen: set<string>)
    ensures Urls(Dedup(links, seen)) == Urls(links) - seen
  {
    if links != [] {
      var rest := links[1..];
      assert links == [links[0]] + rest;
      UrlsCons(links[0], rest);
      if links[0].url in seen {
        DedupUrls(rest, seen);
      } else {
        var tail := Dedup(rest, seen + {links[0].url});
        DedupUrls(rest, seen + {links[0].url});
        UrlsCons(links[0], tail);
      }
    }
  }

  /** Each URL is visited at most once. */
  lemma {:induction false} DedupDistinct(links: seq<Link>, seen: set<string>)
    ensures var r := Dedup(links, seen); forall i, j :: 0 <= i < j < |r| ==> r[i].url != r[j].url
  {
    if links != [] {
      var rest := links[1..];
      if links[0].url in seen {
        DedupDistinct(rest, seen);
        var r := Dedup(links, seen);
        assert r == Dedup(rest, seen);
        forall i, j | 0 <= i < j < |r| ensures r[i].url != r[j].url {
          assert r[i] == Dedup(rest, seen)[i] && r[j] == Dedup(rest, seen)[j];
        }
      } else {
        var seen' := seen + {links[0].url};
        var r, tail := Dedup(links, seen), Dedup(rest, seen');
        DedupDistinct(rest, seen');
        DedupUrls(rest, seen');
        assert r == [links[0]] + tail;
        forall i, j | 0 <= i < j < |r| ensures r[i].url != r[j].url {
          assert r[j] == tail[j - 1];
          if i == 0 {
            assert r[j].url in Urls(tail);
          } else {
            assert r[i] == tail[i - 1];
          }
        }
      }
    }
  }

  /** Each visited link is one of the links. */
  lemma {:induction false} DedupFrom(links: seq<Link>, seen: set<string>)
    ensures forall l :: l in Dedup(links, seen) ==> l in links
  {
    if links != [] {
      var rest := links[1..];
      assert links == [links[0]] + rest;
      var seen' := if links[0].url in seen then seen else seen + {links[0].url};
      DedupFrom(rest, seen');
    }
  }

  /** The visited links are the first occurrences of the URLs not yet seen, each exactly once. */
  lemma DedupSpec(links: seq<Link>, seen: set<string>)
    ensures var r := Dedup(links, seen);
      && Urls(r) == Urls(links) - seen
      && (forall i, j :: 0 <= i < j < |r| ==> r[i].url != r[j].url)
      && (forall i :: 0 <= i < |r| ==> r[i] in links)
  {
    DedupUrls(links, seen);
    DedupDistinct(links, seen);
    DedupFrom(links, seen);
    var r := Dedup(links, seen);
    assert forall i :: 0 <= i < |r| ==> r[i] in r;
  }

  /** Visiting a list followed by more links: the later links only add URLs not seen so far. */
  lemma {:induction false} DedupAppend(a: seq<Link>, b: seq<Link>, seen: set<string>)
    ensures Dedup(a + b, seen) == Dedup(a, seen) + Dedup(b, seen + Urls(a))
  {
    if a == [] {
      assert a + b == b;
      assert Urls(a) == {};
      assert seen + Urls(a) == seen;
    } else {
      assert (a + b)[1..] == a[1..] + b;
      assert (a + b)[0] == a[0];
      var seen' := if a[0].url in seen then seen else seen + {a[0].url};
      DedupAppend(a[1..], b, seen');
      assert a == [a[0]] + a[1..];
      UrlsCons(a[0], a[1..]);
      assert seen' + Urls(a[1..]) == seen + Urls(a);
      if a[0].url !in seen {
        AppendTwice([a[0]], Dedup(a[1..], seen'), Dedup(b, seen' + Urls(a[1..])));
      }
    }
  }

  /** Links whose URLs were all seen add nothing. */
  lemma {:induction false} DedupAllSeen(b: seq<Link>, seen: set<string>)
    requires Urls(b) <= seen
    ensures Dedup(b, seen) == []
  {
    if b != [] {
      assert b[0].url in Urls(b);
      assert Urls(b[1..]) <= Urls(b) by {
        forall u | u in Urls(b[1..]) ensures u in Urls(b) {
          var i :| 0 <= i < |b[1..]| && b[1..][i].url == u;
          assert b[i + 1] == b[1..][i];
        }
      }
      DedupAllSeen(b[1..], seen);
    }
  }

  /** Within a section, listing the same links twice visits them once. */
  lemma DedupRepeated(links: seq<Link>)
    ensures Dedup(links + links, {}) == Dedup(links, {})
  {
    DedupAppend(links, links, {});
    assert {} + Urls(links) == Urls(links);
    DedupAllSeen(links, Urls(links));
  }

  /** The report one link gives, if any. */
  function Found(o: Outcome): seq<CrashReport> {
    if o.report.Some? then [o.report.value] else []
  }

  /** The output line one link gives, if any. */
  function Said(o: Outcome): seq<string> {
    if o.line.Some? then [o.line.value] else []
  }

  /** The reports the visited links give, in order. */
  function LinkedReports(visited: seq<Link>, fetch: string -> Response): seq<CrashReport> {
    if visited == [] then [] else Found(Visit(visited[0], fetch)) + LinkedReports(visited[1..], fetch)
  }

  /** The output lines the visited links give, in order. */
  function LinkedLines(visited: seq<Link>, fetch: string -> Response): seq<string> {
    if visited == [] then [] else Said(Visit(visited[0], fetch)) + LinkedLines(visited[1..], fetch)
  }

  /** A report that a whitelisted link among `visited` downloaded with status 200, whose text
      starts with the marker. */
  predicate FetchedReport(r: CrashReport, visited: seq<Link>, fetch: string -> Response) {
    && StartsWith(r.content, ReportMarker)
    && fetch(r.url) == Response(200, r.content)
    && exists l :: l in visited && Classify(l) == Download(r.url)
  }

  /** Every linked report is a whitelisted download, fetched with status 200, that starts with
      the marker. */
  lemma {:induction false} LinkedReportsSound(visited: seq<Link>, fetch: string -> Response)
    ensures forall r :: r in LinkedReports(visited, fetch) ==> FetchedReport(r, visited, fetch)
  {
    if visited != [] {
      var tail := LinkedReports(visited[1..], fetch);
      LinkedReportsSound(visited[1..], fetch);
      var rs := LinkedReports(visited, fetch);
      var o := Visit(visited[0], fetch);
      var head := Found(o);
      assert rs == head + tail;
      forall r | r in rs ensures FetchedReport(r, visited, fetch) {
        if r in head {
          assert Classify(visited[0]) == Download(r.url);
        } else {
          var l :| l in visited[1..] && Classify(l) == Download(r.url);
          assert l in visited;
        }
      }
    }
  }

  /** The failure line of a link among `visited` whose download did not answer 200. */
  predicate FailedDownload(line: string, visited: seq<Link>, fetch: string -> Response) {
    exists l :: l in visited && Classify(l).Download?
      && fetch(Classify(l).target).status != 200 && line == FailedLine(Classify(l).target, l.url)
  }

  /** Every output line is the refusal or the failure line of a visited link whose download did
      not answer 200. */
  lemma {:induction false} LinkedLinesSound(visited: seq<Link>, fetch: string -> Response)
    ensures forall line :: line in LinkedLines(visited, fetch) ==>
      line == UbuntuRefusal || FailedDownload(line, visited, fetch)
  {
    if visited != [] {
      var tail := LinkedLines(visited[1..], fetch);
      LinkedLinesSound(visited[1..], fetch);
      var ls := LinkedLines(visited, fetch);
      var o := Visit(visited[0], fetch);
      var head := Said(o);
      assert ls == head + tail;
      forall line | line in ls && line != UbuntuRefusal ensures FailedDownload(line, visited, fetch) {
        if line in head {
          assert visited[0] in visited;
        } else {
          var l :| l in visited[1..] && Classify(l).Download?
            && fetch(Classify(l).target).status != 200 && line == FailedLine(Classify(l).target, l.url);
          assert l in visited;
        }
      }
    }
  }

  /** Every visited link that gives a report contributes it: the downloaded text under the
      download URL. */
  lemma {:induction false} LinkedReportsComplete(visited: seq<Link>, fetch: string -> Response, i: nat)
    requires i < |visited| && GivesReport(visited[i], fetch)
    ensures var t := Classify(visited[i]).target;
      CrashReport(t, fetch(t).text) in LinkedReports(visited, fetch)
  {
    var t := Classify(visited[i]).target;
    var o := Visit(visited[0], fetch);
    assert LinkedReports(visited, fetch) == Found(o) + LinkedReports(visited[1..], fetch);
    if i > 0 {
      assert visited[1..][i - 1] == visited[i];
      LinkedReportsComplete(visited[1..], fetch, i - 1);
    } else {
      assert Found(o) == [CrashReport(t, fetch(t).text)];
    }
  }

  /** Every visited paste.ubuntu.com link contributes the refusal line, and every visited download
      that does not answer 200 contributes its failure line. */
  lemma {:induction false} LinkedLinesComplete(visited: seq<Link>, fetch: string -> Response, i: nat)
    requires i < |visited|
    ensures visited[i].hostname == Ubuntu ==> UbuntuRefusal in LinkedLines(visited, fetch)
    ensures DownloadFails(visited[i], fetch) ==>
      FailedLine(Classify(visited[i]).target, visited[i].url) in LinkedLines(visited, fetch)
  {
    var o := Visit(visited[0], fetch);
    assert LinkedLines(visited, fetch) == Said(o) + LinkedLines(visited[1..], fetch);
    if i > 0 {
      assert visited[1..][i - 1] == visited[i];
      LinkedLinesComplete(visited[1..], fetch, i - 1);
    }
  }

  // ---------------------------------------------------------------------------------------------
  // Whole sections and the list of sections (entrypoint.py:268-285)

  /** How scanning ends: normally; never, in the inline loop; or with the KeyError of a section
      key missing from the form, which nothing catches. */
  datatype Flow = Returns | NeverReturns | KeyMissing

  /** What scanning yields: how it ended, the reports found, and the lines it added to the output. */
  datatype Scan = Scan(flow: Flow, reports: seq<CrashReport>, lines: seq<string>)

  /** One section, `_search_section`. With an inline report the loop never ends; the scan records
      the report of its first round. Otherwise the section's links are visited, each URL once. */
  function SectionScan(formData: map<string, string>, key: string, extract: string -> seq<Link>,
                       fetch: string -> Response): Scan
  {
    if key !in formData then Scan(KeyMissing, [], [])
    else
      var data := formData[key];
      if HasInline(data) then Scan(NeverReturns, [CrashReport("inline " + Decimal(1), InlineText(data))], [])
      else
        var visited := Dedup(extract(data), {});
        Scan(Returns, LinkedReports(visited, fetch), LinkedLines(visited, fetch))
  }

  /** The sections in order, `crash_reports`: reports and lines accumulate until a section does
      not return. */
  function Locate(formData: map<string, string>, keys: seq<string>, extract: string -> seq<Link>,
                  fetch: string -> Response): Scan
  {
    if keys == [] then Scan(Returns, [], [])
    else
      var before := Locate(formData, keys[..|keys| - 1], extract, fetch);
      if before.flow != Returns then before
      else
        var s := SectionScan(formData, keys[|keys| - 1], extract, fetch);
        Scan(s.flow, before.reports + s.reports, before.lines + s.lines)
  }

  /** Once a section does not return, later sections change nothing. */
  lemma {:induction false} LocateStops(formData: map<string, string>, keys: seq<string>, j: nat,
                                       extract: string -> seq<Link>, fetch: string -> Response)
    requires j <= |keys| && Locate(formData, keys[..j], extract, fetch).flow != Returns
    ensures Locate(formData, keys, extract, fetch) == Locate(formData, keys[..j], extract, fetch)
    decreases |keys| - j
  {
    if j < |keys| {
      var next := keys[..j + 1];
      assert next[..|next| - 1] == keys[..j];
      LocateStops(formData, keys, j + 1, extract, fetch);
    } else {
      assert keys[..j] == keys;
    }
  }

  /** One more section, after sections that all returned, adds its reports and lines. */
  lemma LocateStep(formData: map<string, string>, keys: seq<string>, i: nat,
                   extract: string -> seq<Link>, fetch: string -> Response)
    requires i < |keys| && Locate(formData, keys[..i], extract, fetch).flow == Returns
    ensures var before, s := Locate(formData, keys[..i], extract, fetch), SectionScan(formData, keys[i], extract, fetch);
      Locate(formData, keys[..i + 1], extract, fetch) == Scan(s.flow, before.reports + s.reports, before.lines + s.lines)
  {
    var next := keys[..i + 1];
    assert next[..|next| - 1] == keys[..i] && next[|next| - 1] == keys[i];
  }

  /** The reports of the sections, each section's after those of the sections before it. */
  function SectionReports(formData: map<string, string>, keys: seq<string>, extract: string -> seq<Link>,
                          fetch: string -> Response): seq<CrashReport>
  {
    if keys == [] then []
    else SectionScan(formData, keys[0], extract, fetch).reports + SectionReports(formData, keys[1..], extract, fetch)
  }

  /** The output lines of the sections, each section's after those of the sections before it. */
  function SectionLines(formData: map<string, string>, keys: seq<string>, extract: string -> seq<Link>,
                        fetch: string -> Response): seq<string>
  {
    if keys == [] then []
    else SectionScan(formData, keys[0], extract, fetch).lines + SectionLines(formData, keys[1..], extract, fetch)
  }

  lemma {:induction false} SectionsSnoc(formData: map<string, string>, keys: seq<string>, k: string,
                                        extract: string -> seq<Link>, fetch: string -> Response)
    ensures var s := SectionScan(formData, k, extract, fetch);
      && SectionReports(formData, keys + [k], extract, fetch) == SectionReports(formData, keys, extract, fetch) + s.reports
      && SectionLines(formData, keys + [k], extract, fetch) == SectionLines(formData, keys, extract, fetch) + s.lines
  {
    var s := SectionScan(formData, k, extract, fetch);
    if keys == [] {
      assert keys + [k] == [k];
      assert [k][1..] == [];
    } else {
      var head := SectionScan(formData, keys[0], extract, fetch);
      assert (keys + [k])[0] == keys[0] && (keys + [k])[1..] == keys[1..] + [k];
      SectionsSnoc(formData, keys[1..], k, extract, fetch);
      AppendTwice(head.reports, SectionReports(formData, keys[1..], extract, fetch), s.reports);
      AppendTwice(head.lines, SectionLines(formData, keys[1..], extract, fetch), s.lines);
    }
  }

  /** When every section returns, the scan returns with the reports and the lines of all sections,
      in the order of the keys. */
  lemma {:induction false} LocateAllReturn(formData: map<string, string>, keys: seq<string>,
                                           extract: string -> seq<Link>, fetch: string -> Response)
    requires forall i :: 0 <= i < |keys| ==> SectionScan(formData, keys[i], extract, fetch).flow == Returns
    ensures Locate(formData, keys, extract, fetch)
      == Scan(Returns, SectionReports(formData, keys, extract, fetch), SectionLines(formData, keys, extract, fetch))
  {
    if keys != [] {
      var init, k := keys[..|keys| - 1], keys[|keys| - 1];
      forall i | 0 <= i < |init| ensures SectionScan(formData, init[i], extract, fetch).flow == Returns {
        assert init[i] == keys[i];
      }
      LocateAllReturn(formData, init, extract, fetch);
      assert keys == init + [k];
      SectionsSnoc(formData, init, k, extract, fetch);
    }
  }

  /** A key missing from the form stops the scan with the KeyError at that section. */
  lemma MissingKeyStops(formData: map<string, string>, keys: seq<string>, extract: string -> seq<Link>,
                        fetch: string -> Response)
    requires exists i :: 0 <= i < |keys| && keys[i] !in formData
    ensures Locate(formData, keys, extract, fetch).flow != Returns
  {
    var i :| 0 <= i < |keys| && keys[i] !in formData;
    var prefix := keys[..i + 1];
    assert prefix[|prefix| - 1] == keys[i];
    assert Locate(formData, prefix, extract, fetch).flow != Returns;
    LocateStops(formData, keys, i + 1, extract, fetch);
  }

  /** URLs are told apart within a section only: two sections with the same text, neither holding
      an inline report, give every report twice and every line twice. */
  lemma SameTextTwice(formData: map<string, string>, k1: string, k2: string, extract: string -> seq<Link>,
                      fetch: string -> Response)
    requires k1 in formData && k2 in formData && formData[k1] == formData[k2]
    requires !HasInline(formData[k1])
    ensures var once := SectionScan(formData, k1, extract, fetch);
      Locate(formData, [k1, k2], extract, fetch) == Scan(Returns, once.reports + once.reports, once.lines + once.lines)
  {
    var once := SectionScan(formData, k1, extract, fetch);
    assert SectionScan(formData, k2, extract, fetch) == once;
    assert [k1][..0] == [];
    assert Locate(formData, [k1], extract, fetch) == Scan(Returns, [] + once.reports, [] + once.lines);
    assert once.reports == [] + once.reports && once.lines == [] + once.lines;
    assert [k1, k2][..1] == [k1];
  }
}
