/** The bot's `Helper`: the issue form, the section keys to scan, and the output lines `_out` that
    the section scan and the analyses append to. */
module HelperModel {
  import opened Text
  import opened InstalledMods
  import opened CrashReports
  import opened Links
  import opened Sections
  import opened Analysis

  /** The official filename list used for a report: the one for the report's side. */
  function OfficialFor(formData: map<string, string>, resolver: (string, Side) -> Option<seq<string>>,
                       cr: CrashReport): seq<string>
  {
    OfficialList(formData, resolver, SideOf(cr.content))
  }

  /** The iteration orders of each report's two set loops fit that report. */
  predicate AllOrdersFit(formData: map<string, string>, resolver: (string, Side) -> Option<seq<string>>,
                         crs: seq<CrashReport>, orders: seq<(seq<string>, seq<string>)>)
  {
    |orders| == |crs| &&
    forall i :: 0 <= i < |crs| ==> OrdersFit(crs[i], OfficialFor(formData, resolver, crs[i]), orders[i].0, orders[i].1)
  }

  /** The lines of all analyses in report order, those that raised included. */
  function AllAnalyses(formData: map<string, string>, resolver: (string, Side) -> Option<seq<string>>,
                       crs: seq<CrashReport>, orders: seq<(seq<string>, seq<string>)>): seq<string>
    requires AllOrdersFit(formData, resolver, crs, orders)
  {
    if crs == [] then []
    else
      var n := |crs| - 1;
      assert AllOrdersFit(formData, resolver, crs[..n], orders[..n]) by {
        forall i | 0 <= i < n ensures crs[..n][i] == crs[i] && orders[..n][i] == orders[i] { }
      }
      AllAnalyses(formData, resolver, crs[..n], orders[..n])
        + AnalysisOf(crs[n], OfficialFor(formData, resolver, crs[n]), orders[n].0, orders[n].1).lines
  }

  function FoundLine(n: nat): string {
    "Found " + Decimal(n) + " linked crash report(s)"
  }

  /** The orders of a prefix of the reports fit that prefix. */
  lemma OrdersFitPrefix(formData: map<string, string>, resolver: (string, Side) -> Option<seq<string>>,
                        crs: seq<CrashReport>, orders: seq<(seq<string>, seq<string>)>, n: nat)
    requires AllOrdersFit(formData, resolver, crs, orders) && n <= |crs|
    ensures AllOrdersFit(formData, resolver, crs[..n], orders[..n])
  {
    forall i | 0 <= i < n ensures crs[..n][i] == crs[i] && orders[..n][i] == orders[i] { }
  }

  /** The analyses of one more report: those before it, then its own. */
  lemma AllAnalysesStep(formData: map<string, string>, resolver: (string, Side) -> Option<seq<string>>,
                        crs: seq<CrashReport>, orders: seq<(seq<string>, seq<string>)>, i: nat,
                        missingOrder: seq<string>, addedOrder: seq<string>)
    requires i < |crs| && AllOrdersFit(formData, resolver, crs[..i], orders)
    requires OrdersFit(crs[i], OfficialFor(formData, resolver, crs[i]), missingOrder, addedOrder)
    ensures AllOrdersFit(formData, resolver, crs[..i + 1], orders + [(missingOrder, addedOrder)])
    ensures AllAnalyses(formData, resolver, crs[..i + 1], orders + [(missingOrder, addedOrder)])
      == AllAnalyses(formData, resolver, crs[..i], orders)
         + AnalysisOf(crs[i], OfficialFor(formData, resolver, crs[i]), missingOrder, addedOrder).lines
  {
    var next, more := crs[..i + 1], orders + [(missingOrder, addedOrder)];
    assert next[..i] == crs[..i] && more[..i] == orders && next[i] == crs[i] && more[i] == (missingOrder, addedOrder);
    forall j | 0 <= j < i + 1
      ensures OrdersFit(next[j], OfficialFor(formData, resolver, next[j]), more[j].0, more[j].1)
    {
      if j < i {
        assert next[j] == crs[..i][j] && more[j] == orders[j];
      }
    }
  }

  /** Every report gets its analysis, in order, whether or not an earlier one raised: the header
      line of each report is in the output. */
  lemma {:induction false} EveryReportAnalyzed(formData: map<string, string>,
                                               resolver: (string, Side) -> Option<seq<string>>,
                                               crs: seq<CrashReport>, orders: seq<(seq<string>, seq<string>)>)
    requires AllOrdersFit(formData, resolver, crs, orders)
    ensures forall i :: 0 <= i < |crs| ==> HeaderLine(crs[i].url) in AllAnalyses(formData, resolver, crs, orders)
  {
    if crs != [] {
      var n := |crs| - 1;
      OrdersFitPrefix(formData, resolver, crs, orders, n);
      EveryReportAnalyzed(formData, resolver, crs[..n], orders[..n]);
      var before := AllAnalyses(formData, resolver, crs[..n], orders[..n]);
      var last := AnalysisOf(crs[n], OfficialFor(formData, resolver, crs[n]), orders[n].0, orders[n].1).lines;
      var whole := AllAnalyses(formData, resolver, crs, orders);
      assert whole == before + last;
      forall i | 0 <= i < |crs| ensures HeaderLine(crs[i].url) in whole {
        if i < n {
          assert crs[..n][i] == crs[i];
          assert HeaderLine(crs[i].url) in before;
          assert HeaderLine(crs[i].url) in before + last;
        } else {
          var a := AnalysisOf(crs[n], OfficialFor(formData, resolver, crs[n]), orders[n].0, orders[n].1);
          assert a.lines[0] == HeaderLine(crs[n].url);
          assert whole[|before|] == last[0] && |before| < |whole|;
          assert i == n;
        }
      }
    }
  }

  /** One more filename taken from the rest of the set keeps the order an enumeration of what
      was taken. */
  lemma EnumeratesStep(order: seq<string>, s: set<string>, rest: set<string>, f: string)
    requires rest <= s && f in rest && Enumerates(order, s - rest)
    ensures Enumerates(order + [f], s - (rest - {f}))
  {
    assert (set x | x in order + [f]) == (set x | x in order) + {f};
    assert (s - rest) + {f} == s - (rest - {f});
    forall i | 0 <= i < |order| ensures order[i] != f {
      assert order[i] in (set x | x in order);
    }
  }

  /** An enumeration of a non-empty set is not empty. */
  lemma EnumerationNonEmpty(order: seq<string>, s: set<string>)
    requires Enumerates(order, s) && s != {}
    ensures order != []
  {
    var x :| x in s;
    assert x in (set y | y in order);
  }

  /** A link whose URL was already seen is skipped. */
  lemma DedupSkip(links: seq<Link>, i: nat, seen: set<string>)
    requires i < |links| && links[i].url in seen
    ensures Dedup(links[i..], seen) == Dedup(links[i + 1..], seen)
  {
    assert links[i..][0] == links[i] && links[i..][1..] == links[i + 1..];
  }

  /** The loop of `VisitAll` after a link with a new URL: what the link adds moves from the links
      still to come to what has been collected. */
  lemma VisitStep(links: seq<Link>, i: nat, seen: set<string>, fetch: string -> Response,
                  reports: seq<CrashReport>, lines: seq<string>, allReports: seq<CrashReport>, allLines: seq<string>)
    requires i < |links| && links[i].url !in seen
    requires reports + LinkedReports(Dedup(links[i..], seen), fetch) == allReports
    requires lines + LinkedLines(Dedup(links[i..], seen), fetch) == allLines
    ensures var o, later := Visit(links[i], fetch), Dedup(links[i + 1..], seen + {links[i].url});
      && (reports + Found(o)) + LinkedReports(later, fetch) == allReports
      && (lines + Said(o)) + LinkedLines(later, fetch) == allLines
  {
    var o, later := Visit(links[i], fetch), Dedup(links[i + 1..], seen + {links[i].url});
    DedupVisit(links, i, seen, fetch);
    AppendTwice(reports, Found(o), LinkedReports(later, fetch));
    AppendTwice(lines, Said(o), LinkedLines(later, fetch));
  }

  /** A link with a new URL is visited, and its URL is recorded for the links after it. */
  lemma DedupVisit(links: seq<Link>, i: nat, seen: set<string>, fetch: string -> Response)
    requires i < |links| && links[i].url !in seen
    ensures var o, later := Visit(links[i], fetch), Dedup(links[i + 1..], seen + {links[i].url});
      && LinkedReports(Dedup(links[i..], seen), fetch)
           == Found(o) + LinkedReports(later, fetch)
      && LinkedLines(Dedup(links[i..], seen), fetch)
           == Said(o) + LinkedLines(later, fetch)
  {
    var l, rest := links[i], links[i + 1..];
    assert links[i..][0] == l && links[i..][1..] == rest;
    var later := Dedup(rest, seen + {l.url});
    assert Dedup(links[i..], seen) == [l] + later;
    assert ([l] + later)[0] == l && ([l] + later)[1..] == later;
  }

  class Helper {
    const formData: map<string, string>
    const sections: seq<string>
    var out: seq<string>

    constructor (formData: map<string, string>, sections: seq<string>)
      ensures this.formData == formData && this.sections == sections && out == []
    {
      this.formData := formData;
      this.sections := sections;
      out := [];
    }

    /** `_search_section`: the inline report of the section, or its linked reports with the refusal
        and failure lines for its links. `extract` stands for the URL regex and `urlparse`,
        `fetch` for the download. */
    method SearchSection(key: string, extract: string -> seq<Link>, fetch: string -> Response)
      returns (flow: Flow, reports: seq<CrashReport>)
      modifies this
      ensures var s := SectionScan(formData, key, extract, fetch);
        flow == s.flow && reports == s.reports && out == old(out) + s.lines
    {
      if key !in formData {
        return KeyMissing, [];
      }
      var data := formData[key];
      if Contains(data, ReportMarker) && Contains(data, CompletenessMarker) {
        reports := InlineRound(data);
        return NeverReturns, reports;
      }
      reports := VisitAll(extract(data), fetch);
      flow := Returns;
    }

    /** The first round of the inline loop. Its search for the next marker starts at the marker
        just found, so `istart` keeps its value and the loop goes round forever. */
    method InlineRound(data: string) returns (reports: seq<CrashReport>)
      requires HasInline(data)
      ensures reports == [CrashReport("inline " + Decimal(1), InlineText(data))]
    {
      reports := [];
      var istart := Find(data, ReportMarker, 0);
      var moddedline := Find(data, CompletenessMarker, istart);
      var iend := Find(data, "\n", moddedline);
      if iend == -1 {
        iend := |data|;
      }
      InlineSpanBounds(data);
      reports := reports + [CrashReport("inline " + Decimal(|reports| + 1), data[istart..iend])];
      ghost var before := istart;
      istart := Find(data, ReportMarker, istart);
      InlineSearchStalls(data);
      assert istart == before;
    }

    /** The links of a section in order, each URL once: what each visited link adds. */
    method VisitAll(links: seq<Link>, fetch: string -> Response) returns (reports: seq<CrashReport>)
      modifies this
      ensures var visited := Dedup(links, {});
        reports == LinkedReports(visited, fetch) && out == old(out) + LinkedLines(visited, fetch)
    {
      reports := [];
      var seen: set<string> := {};
      var i := 0;
      ghost var allReports := LinkedReports(Dedup(links, {}), fetch);
      ghost var allLines := old(out) + LinkedLines(Dedup(links, {}), fetch);
      assert links[0..] == links;
      while i < |links|
        invariant 0 <= i <= |links|
        invariant reports + LinkedReports(Dedup(links[i..], seen), fetch) == allReports
        invariant out + LinkedLines(Dedup(links[i..], seen), fetch) == allLines
      {
        reports, seen := VisitNext(links, i, seen, fetch, reports, allReports, allLines);
        i := i + 1;
      }
    }

    /** One pass of the loop in `VisitAll`: the link at `i` is skipped when its URL was seen, and
        visited otherwise; what it adds moves from the links to come to what has been collected. */
    method VisitNext(links: seq<Link>, i: nat, seen: set<string>, fetch: string -> Response,
                     reports: seq<CrashReport>, ghost allReports: seq<CrashReport>, ghost allLines: seq<string>)
      returns (collected: seq<CrashReport>, seenAfter: set<string>)
      requires i < |links|
      requires reports + LinkedReports(Dedup(links[i..], seen), fetch) == allReports
      requires out + LinkedLines(Dedup(links[i..], seen), fetch) == allLines
      modifies this
      ensures seenAfter == seen + {links[i].url}
      ensures collected + LinkedReports(Dedup(links[i + 1..], seenAfter), fetch) == allReports
      ensures out + LinkedLines(Dedup(links[i + 1..], seenAfter), fetch) == allLines
    {
      var l := links[i];
      if l.url in seen {
        DedupSkip(links, i, seen);
        return reports, seen;
      }
      VisitStep(links, i, seen, fetch, reports, out, allReports, allLines);
      var found := VisitLink(l, fetch);
      return reports + found, seen + {l.url};
    }

    /** One visited link: `Visit`, with its line appended to the output. */
    method VisitLink(l: Link, fetch: string -> Response) returns (found: seq<CrashReport>)
      modifies this
      ensures found == Found(Visit(l, fetch)) && out == old(out) + Said(Visit(l, fetch))
    {
      found := [];
      var route := Classify(l);
      if route.UbuntuRefused? {
        out := out + [UbuntuRefusal];
      } else if route.Download? && route.target != "" {
        var resp := fetch(route.target);
        if resp.status != 200 {
          out := out + [FailedLine(route.target, l.url)];
        } else if StartsWith(resp.text, ReportMarker) {
          found := [CrashReport(route.target, resp.text)];
        }
      }
    }

    /** `crash_reports`: the sections in order, stopping at the first that does not return. */
    method LocateReports(extract: string -> seq<Link>, fetch: string -> Response)
      returns (flow: Flow, reports: seq<CrashReport>)
      modifies this
      ensures var loc := Locate(formData, sections, extract, fetch);
        flow == loc.flow && reports == loc.reports && out == old(out) + loc.lines
    {
      flow, reports := Returns, [];
      var i := 0;
      while i < |sections|
        invariant 0 <= i <= |sections|
        invariant var loc := Locate(formData, sections[..i], extract, fetch);
          loc.flow == Returns && loc.reports == reports && out == old(out) + loc.lines
      {
        ghost var before, out0 := Locate(formData, sections[..i], extract, fetch), out;
        var f, r := SearchSection(sections[i], extract, fetch);
        LocateStep(formData, sections, i, extract, fetch);
        ghost var s := SectionScan(formData, sections[i], extract, fetch);
        AppendTwice(old(out), before.lines, s.lines);
        reports := reports + r;
        if f != Returns {
          LocateStops(formData, sections, i + 1, extract, fetch);
          flow := f;
          return;
        }
        i := i + 1;
      }
      assert sections[..i] == sections;
    }

    /** The early rules of `analyze` for a report with this URL, truncation flag and trace. */
    method EarlyRules(url: string, truncated: bool, trace: seq<string>) returns (stage: Stage)
      modifies this
      ensures var t := Rules(url, truncated, trace); out == old(out) + t.lines && stage == t.stage
    {
      out := out + [HeaderLine(url)];
      if truncated {
        out := out + [TruncatedWarning];
        AppendTwice(old(out), [HeaderLine(url)], [TruncatedWarning]);
      }
      ghost var open := Opening(url, truncated);
      assert out == old(out) + open;
      if UselessNpe(trace) {
        out := out + [UselessRemark];
        AppendTwice(old(out), open, [UselessRemark]);
        return Stopped;
      }
      if WorldCorruption(trace) {
        out := out + [CorruptionRemark];
        AppendTwice(old(out), open, [CorruptionRemark]);
        return Stopped;
      }
      if trace == [] {
        // `main_stack_trace[0]` raises IndexError
        return Raised;
      }
      ghost var hint := if trace[0] == ChunkBuildFailed then [AngelicaHint] else [];
      if trace[0] == ChunkBuildFailed {
        out := out + [AngelicaHint];
      }
      AppendTwice(old(out), open, hint);
      out := out + [TraceBlock(trace)];
      AppendTwice(old(out), open + hint, [TraceBlock(trace)]);
      stage := Proceed;
    }

    /** The bullets of the "Missing mods" block: one loop over the set, in an order the model
        does not fix. */
    method MissingLoop(missing: set<string>, recent: bool) returns (ghost order: seq<string>)
      modifies this
      ensures Enumerates(order, missing)
      ensures out == old(out) + MissingBullets(order, recent)
    {
      order := [];
      var rest := missing;
      while rest != {}
        invariant rest <= missing
        invariant Enumerates(order, missing - rest)
        invariant out == old(out) + MissingBullets(order, recent)
        decreases |rest|
      {
        var f :| f in rest;
        MissingBulletsAppend(order, f, recent);
        EnumeratesStep(order, missing, rest, f);
        order := order + [f];
        rest := rest - {f};
        out := out + (if Listed(f, recent) then [Bullet(f)] else []);
      }
      assert missing - {} == missing;
    }

    /** The bullets of the "Added mods" block: one loop over the set, in an order the model does
        not fix. */
    method AddedLoop(added: set<string>, byName: map<string, InstalledMod>) returns (ghost order: seq<string>)
      requires added <= byName.Keys
      modifies this
      ensures Enumerates(order, added)
      ensures forall i :: 0 <= i < |order| ==> order[i] in byName
      ensures out == old(out) + AddedBullets(order, byName)
    {
      order := [];
      var rest := added;
      while rest != {}
        invariant rest <= added
        invariant Enumerates(order, added - rest)
        invariant forall i :: 0 <= i < |order| ==> order[i] in byName
        invariant out == old(out) + AddedBullets(order, byName)
        decreases |rest|
      {
        var f :| f in rest;
        AddedBulletsAppend(order, f, byName);
        EnumeratesStep(order, added, rest, f);
        order := order + [f];
        rest := rest - {f};
        out := out + [AddedBullet(f, byName[f])];
      }
      assert added - {} == added;
    }

    /** The two set loops of `analyze` for a report's mods against the official list. */
    method Diff(mods: seq<InstalledMod>, official: seq<string>, recent: bool)
      returns (ghost missingOrder: seq<string>, ghost addedOrder: seq<string>)
      modifies this
      ensures Enumerates(missingOrder, Missing(official, mods)) && Enumerates(addedOrder, Added(official, mods))
      ensures forall i :: 0 <= i < |addedOrder| ==> addedOrder[i] in ModsByFilename(mods)
      ensures out == old(out) + DiffLines(missingOrder, addedOrder, ModsByFilename(mods), recent)
    {
      var byName := ModsByFilename(mods);
      ModsByFilenameKeys(mods);
      var officialSet := OfficialSet(official);
      var missing, added := officialSet - byName.Keys, byName.Keys - officialSet;
      missingOrder, addedOrder := [], [];
      if missing != {} {
        out := out + [MissingOpen];
        missingOrder := MissingLoop(missing, recent);
        out := out + [DetailsClose];
        EnumerationNonEmpty(missingOrder, missing);
        AppendTwice(old(out), [MissingOpen], MissingBullets(missingOrder, recent));
        AppendTwice(old(out), [MissingOpen] + MissingBullets(missingOrder, recent), [DetailsClose]);
      }
      ghost var missingLines := if missingOrder == [] then [] else [MissingOpen] + MissingBullets(missingOrder, recent) + [DetailsClose];
      assert out == old(out) + missingLines;
      ghost var middle := out;
      if added != {} {
        out := out + [AddedOpen];
        addedOrder := AddedLoop(added, byName);
        out := out + [DetailsClose];
        EnumerationNonEmpty(addedOrder, added);
        AppendTwice(middle, [AddedOpen], AddedBullets(addedOrder, byName));
        AppendTwice(middle, [AddedOpen] + AddedBullets(addedOrder, byName), [DetailsClose]);
      }
      ghost var addedLines := if addedOrder == [] then [] else [AddedOpen] + AddedBullets(addedOrder, byName) + [DetailsClose];
      assert out == middle + addedLines;
      AppendTwice(old(out), missingLines, addedLines);
    }

    /** `analyze`: the rule chain for one report, then the missing and added mods. The two sets
        are iterated in an order the model does not fix; the orders taken are returned. */
    method Analyze(cr: CrashReport, resolver: (string, Side) -> Option<seq<string>>)
      returns (raised: bool, ghost missingOrder: seq<string>, ghost addedOrder: seq<string>)
      modifies this
      ensures OrdersFit(cr, OfficialFor(formData, resolver, cr), missingOrder, addedOrder)
      ensures var a := AnalysisOf(cr, OfficialFor(formData, resolver, cr), missingOrder, addedOrder);
        out == old(out) + a.lines && raised == a.raised
    {
      var official := OfficialList(formData, resolver, SideOf(cr.content));
      var trace := MainStackTrace(cr.content);
      var stage := EarlyRules(cr.url, Truncated(cr.content), trace);
      ghost var t := TriageOf(cr);
      assert out == old(out) + t.lines && stage == t.stage;
      if stage != Proceed || official == [] {
        missingOrder := EnumerationOf(Missing(official, ModList(cr.content)));
        addedOrder := EnumerationOf(Added(official, ModList(cr.content)));
        AnalysisOfStops(cr, official, missingOrder, addedOrder);
        return stage == Raised, missingOrder, addedOrder;
      }
      var mods := ModListOf(cr.content);
      var recent := IsRecentJava(cr.content);
      ghost var early := out;
      missingOrder, addedOrder := Diff(mods, official, recent);
      AnalysisOfProceeds(cr, official, missingOrder, addedOrder);
      AppendTwice(old(out), t.lines, DiffLines(missingOrder, addedOrder, ModsByFilename(mods), recent));
      raised := false;
    }

    /** `main`: nothing is published when no report is found (lines the scan added stay
        unpublished); otherwise the count line, then every report's analysis in order, a raised
        analysis keeping the lines it added. When a section never returns or its key is missing,
        nothing is published. */
    method Run(extract: string -> seq<Link>, fetch: string -> Response,
               resolver: (string, Side) -> Option<seq<string>>)
      returns (flow: Flow, published: Option<seq<string>>, ghost orders: seq<(seq<string>, seq<string>)>)
      modifies this
      ensures var loc := Locate(formData, sections, extract, fetch);
        && flow == loc.flow
        && ((flow != Returns || loc.reports == []) ==> published == None && out == old(out) + loc.lines)
        && (flow == Returns && loc.reports != [] ==>
              && AllOrdersFit(formData, resolver, loc.reports, orders)
              && out == old(out) + loc.lines + [FoundLine(|loc.reports|)]
                        + AllAnalyses(formData, resolver, loc.reports, orders)
              && published == Some(out))
    {
      var reports;
      flow, reports := LocateReports(extract, fetch);
      orders := [];
      if flow != Returns || reports == [] {
        published := None;
        return;
      }
      out := out + [FoundLine(|reports|)];
      ghost var base := out;
      var i := 0;
      while i < |reports|
        invariant 0 <= i <= |reports|
        invariant AllOrdersFit(formData, resolver, reports[..i], orders)
        invariant out == base + AllAnalyses(formData, resolver, reports[..i], orders)
      {
        var raised;
        ghost var mo, ao;
        raised, mo, ao := Analyze(reports[i], resolver);
        // a raised analysis is logged and the loop goes on with the next report
        AllAnalysesStep(formData, resolver, reports, orders, i, mo, ao);
        AppendTwice(base, AllAnalyses(formData, resolver, reports[..i], orders),
                    AnalysisOf(reports[i], OfficialFor(formData, resolver, reports[i]), mo, ao).lines);
        orders := orders + [(mo, ao)];
        i := i + 1;
      }
      assert reports[..i] == reports;
      published := Some(out);
    }
  }
}
