/** The host whitelist of `_search_section`: which linked files are downloaded, from where, and
    which links are refused. A link arrives already taken apart by `urlparse`. */
module Links {
  import opened Text

  /** A URL found in a section together with its `urlparse` components. */
  datatype Link = Link(url: string, scheme: string, hostname: string, path: string, query: string)

  /** What the classifier decides for a link. */
  datatype Route =
    | Download(target: string)  // fetch this URL
    | Suspicious                // a whitelisted host, but a query or a path of the wrong shape
    | GistUnsupported           // gist.github.com
    | UbuntuRefused             // paste.ubuntu.com: a refusal line goes to the output
    | Unknown                   // any other host

  const Pastebin := "pastebin.com"
  const Github := "github.com"
  const Gist := "gist.github.com"
  const PasteEe := "paste.ee"
  const Mclogs := "mclo.gs"
  const Ubuntu := "paste.ubuntu.com"

  const MclogsRaw := "https://api.mclo.gs/1/raw"
  const GithubFilesMid := "/GT-New-Horizons-Modpack/files/"

  const UbuntuRefusal :=
    "Please refrain from posting crash reports to paste.ubuntu.com. They might require login to be viewed and our automated analysis tool (like this) cannot read their content."

  /** A path that passes `not path or '/' in path[1:]`: non-empty, no '/' after its first character. */
  predicate SingleSegment(path: string) {
    path != [] && '/' !in path[1..]
  }

  /** The shape `/<owner>/GT-New-Horizons-Modpack/files/<rest>`. */
  function GithubPathOf(owner: string, rest: string): string {
    "/" + owner + GithubFilesMid + rest
  }

  /** The shape `/p/<id>/<rest>`. */
  function PasteEePathOf(id: string, rest: string): string {
    "/p/" + id + "/" + rest
  }

  /** `re.fullmatch('/[^/]+/GT-New-Horizons-Modpack/files/.+', path)`: `[^/]+` runs to the second
      '/', so the match is decided there. */
  predicate GithubFilesPath(path: string) {
    && path != [] && path[0] == '/'
    && var k := 1 + IndexOfChar(path[1..], '/');
      && k > 1
      && StartsWith(path[k..], GithubFilesMid)
      && path[k + |GithubFilesMid|..] != []
      && '\n' !in path[k + |GithubFilesMid|..]
  }

  /** `re.fullmatch('/p/[^/]+/.+', path)`. */
  predicate PasteEePath(path: string) {
    && StartsWith(path, "/p/")
    && var k := 3 + IndexOfChar(path[3..], '/');
      && 3 < k < |path|
      && path[k + 1..] != []
      && '\n' !in path[k + 1..]
  }

  /** The pattern accepts exactly the paths `/<owner>/GT-New-Horizons-Modpack/files/<rest>` with a
      non-empty owner without '/' and a non-empty rest without a line break. */
  lemma GithubFilesPathIff(path: string)
    ensures GithubFilesPath(path) <==> exists owner, rest :: (owner != [] && '/' !in owner
      && rest != [] && '\n' !in rest && path == GithubPathOf(owner, rest))
  {
    if GithubFilesPath(path) {
      var k := 1 + IndexOfChar(path[1..], '/');
      var owner, rest := path[1..k], path[k + |GithubFilesMid|..];
      assert path == GithubPathOf(owner, rest) by {
        assert path[k..k + |GithubFilesMid|] == GithubFilesMid;
        assert path == path[..1] + path[1..k] + path[k..k + |GithubFilesMid|] + rest;
      }
      assert '/' !in owner by {
        assert forall j :: 0 <= j < |owner| ==> owner[j] == path[1..][j];
      }
    }
    forall owner, rest | owner != [] && '/' !in owner && rest != [] && '\n' !in rest
      && path == GithubPathOf(owner, rest)
      ensures GithubFilesPath(path)
    {
      GithubFilesPathOf(owner, rest);
    }
  }

  lemma GithubFilesPathOf(owner: string, rest: string)
    requires owner != [] && '/' !in owner && rest != [] && '\n' !in rest
    ensures GithubFilesPath(GithubPathOf(owner, rest))
  {
    GithubOwnerEnds(owner, rest);
    GithubAfterOwner(owner, rest);
  }

  /** In `/<owner>/...` the first '/' after the leading one ends the owner. */
  lemma GithubOwnerEnds(owner: string, rest: string)
    requires owner != [] && '/' !in owner
    ensures IndexOfChar(GithubPathOf(owner, rest)[1..], '/') == |owner|
  {
    var tail := GithubPathOf(owner, rest)[1..];
    assert tail == owner + GithubFilesMid + rest;
    assert forall j :: 0 <= j < |owner| ==> tail[j] == owner[j] && owner[j] != '/';
    assert tail[|owner|] == '/';
  }

  /** What follows the owner: the fixed middle, then the rest. */
  lemma GithubAfterOwner(owner: string, rest: string)
    ensures var path, k := GithubPathOf(owner, rest), 1 + |owner|;
      path[k..] == GithubFilesMid + rest && path[k + |GithubFilesMid|..] == rest
  {
    var path := GithubPathOf(owner, rest);
    assert path == ("/" + owner) + (GithubFilesMid + rest);
  }

  /** The pattern accepts exactly the paths `/p/<id>/<rest>` with a non-empty id without '/' and a
      non-empty rest without a line break. */
  lemma PasteEePathIff(path: string)
    ensures PasteEePath(path) <==> exists id, rest :: (id != [] && '/' !in id
      && rest != [] && '\n' !in rest && path == PasteEePathOf(id, rest))
  {
    if PasteEePath(path) {
      PasteEePieces(path);
    }
    forall id, rest | id != [] && '/' !in id && rest != [] && '\n' !in rest
      && path == PasteEePathOf(id, rest)
      ensures PasteEePath(path)
    {
      PasteEePathOfSound(id, rest);
    }
  }

  /** An accepted path taken apart at the first '/' after the prefix. */
  lemma PasteEePieces(path: string)
    requires PasteEePath(path)
    ensures var k := 3 + IndexOfChar(path[3..], '/');
      var id, rest := path[3..k], path[k + 1..];
      && id != [] && '/' !in id && rest != [] && '\n' !in rest
      && path == PasteEePathOf(id, rest)
  {
    var k := 3 + IndexOfChar(path[3..], '/');
    var id, rest := path[3..k], path[k + 1..];
    assert path == path[..3] + path[3..k] + [path[k]] + rest;
    assert forall j :: 0 <= j < |id| ==> id[j] == path[3..][j];
  }

  lemma PasteEePathOfSound(id: string, rest: string)
    requires id != [] && '/' !in id && rest != [] && '\n' !in rest
    ensures PasteEePath(PasteEePathOf(id, rest))
    ensures PasteEePathOf(id, rest)[2..] == "/" + id + "/" + rest
  {
    PasteEeIdEnds(id, rest);
    PasteEeAfterId(id, rest);
  }

  /** In `/p/<id>/...` the first '/' after the prefix ends the id. */
  lemma PasteEeIdEnds(id: string, rest: string)
    requires '/' !in id
    ensures IndexOfChar(PasteEePathOf(id, rest)[3..], '/') == |id|
  {
    var tail := PasteEePathOf(id, rest)[3..];
    assert tail == id + "/" + rest;
    assert forall j :: 0 <= j < |id| ==> tail[j] == id[j] && id[j] != '/';
    assert tail[|id|] == '/';
  }

  /** The prefix, and what follows the id. */
  lemma PasteEeAfterId(id: string, rest: string)
    ensures var path := PasteEePathOf(id, rest);
      && StartsWith(path, "/p/")
      && path[3 + |id| + 1..] == rest
      && path[2..] == "/" + id + "/" + rest
  {
    var path := PasteEePathOf(id, rest);
    assert path == "/p/" + (id + "/" + rest);
    assert path == ("/p/" + id + "/") + rest;
  }

  /** The whitelist of entrypoint.py:295-322, host by host. */
  function Classify(l: Link): (r: Route)
    ensures r.Download? ==> l.query == ""
    ensures r == UbuntuRefused <==> l.hostname == Ubuntu
    ensures r == GistUnsupported <==> l.hostname == Gist
    ensures r == Unknown <==>
      (l.hostname !in {Pastebin, Gist, PasteEe, Mclogs, Ubuntu}
        && !(l.hostname == Github && GithubFilesPath(l.path)))
  {
    if l.hostname == Pastebin then
      if l.query != "" || !SingleSegment(l.path) then Suspicious
      else Download(l.scheme + "://" + l.hostname + "/raw" + l.path)
    else if l.hostname == Github && GithubFilesPath(l.path) then
      if l.query != "" then Suspicious else Download(l.url)
    else if l.hostname == Gist then GistUnsupported
    else if l.hostname == PasteEe then
      if l.query != "" || !PasteEePath(l.path) then Suspicious
      else Download(l.scheme + "://" + l.hostname + "/d" + l.path[2..])
    else if l.hostname == Mclogs then
      if l.query != "" || !SingleSegment(l.path) then Suspicious
      else Download(MclogsRaw + l.path)
    else if l.hostname == Ubuntu then UbuntuRefused
    else Unknown
  }

  /** Every download comes from a whitelisted link of the accepted shape, and the download URL is
      that host's raw endpoint for the same paste. */
  lemma DownloadShape(l: Link)
    requires Classify(l).Download?
    ensures var t := Classify(l).target;
      || (l.hostname == Pastebin && SingleSegment(l.path)
          && t == l.scheme + "://pastebin.com/raw" + l.path)
      || (l.hostname == Github && t == l.url
          && exists owner, rest :: (owner != [] && '/' !in owner && rest != [] && '\n' !in rest
               && l.path == GithubPathOf(owner, rest)))
      || (l.hostname == PasteEe
          && exists id, rest :: (id != [] && '/' !in id && rest != [] && '\n' !in rest
               && l.path == PasteEePathOf(id, rest)
               && t == l.scheme + "://paste.ee/d/" + id + "/" + rest))
      || (l.hostname == Mclogs && SingleSegment(l.path) && t == MclogsRaw + l.path)
  {
    if l.hostname == Github {
      GithubFilesPathIff(l.path);
    } else if l.hostname == PasteEe {
      PasteEeDownload(l);
    }
  }

  lemma PasteEeDownload(l: Link)
    requires Classify(l).Download? && l.hostname == PasteEe
    ensures exists id, rest :: (id != [] && '/' !in id && rest != [] && '\n' !in rest
      && l.path == PasteEePathOf(id, rest)
      && Classify(l).target == l.scheme + "://paste.ee/d/" + id + "/" + rest)
  {
    PasteEeTarget(l);
    var k := 3 + IndexOfChar(l.path[3..], '/');
    var id, rest := l.path[3..k], l.path[k + 1..];
    PasteEePieces(l.path);
    PasteEePathOfSound(id, rest);
    PasteEeRaw(l.scheme, id, rest);
  }

  /** A paste.ee download comes from an accepted path, with "/d" in place of "/p". */
  lemma PasteEeTarget(l: Link)
    requires Classify(l).Download? && l.hostname == PasteEe
    ensures PasteEePath(l.path) && Classify(l).target == l.scheme + "://paste.ee/d" + l.path[2..]
  {
  }

  lemma PasteEeRaw(scheme: string, id: string, rest: string)
    ensures scheme + "://paste.ee/d" + ("/" + id + "/" + rest) == scheme + "://paste.ee/d/" + id + "/" + rest
  {
  }

  /** Links of the accepted shapes with no query are downloaded from the host's raw endpoint. */
  lemma AcceptedLinks(l: Link, a: string, b: string)
    requires l.query == ""
    ensures l.hostname == Pastebin && SingleSegment(l.path) ==>
      Classify(l) == Download(l.scheme + "://pastebin.com/raw" + l.path)
    ensures l.hostname == Mclogs && SingleSegment(l.path) ==> Classify(l) == Download(MclogsRaw + l.path)
    ensures (l.hostname == Github && a != [] && '/' !in a && b != [] && '\n' !in b
      && l.path == GithubPathOf(a, b)) ==> Classify(l) == Download(l.url)
    ensures (l.hostname == PasteEe && a != [] && '/' !in a && b != [] && '\n' !in b
      && l.path == PasteEePathOf(a, b)) ==> Classify(l) == Download(l.scheme + "://paste.ee/d/" + a + "/" + b)
  {
    if l.hostname == Github && a != [] && '/' !in a && b != [] && '\n' !in b && l.path == GithubPathOf(a, b) {
      AcceptedGithub(l, a, b);
    }
    if l.hostname == PasteEe && a != [] && '/' !in a && b != [] && '\n' !in b && l.path == PasteEePathOf(a, b) {
      AcceptedPasteEe(l, a, b);
    }
  }

  lemma AcceptedGithub(l: Link, owner: string, rest: string)
    requires l.query == "" && l.hostname == Github
    requires owner != [] && '/' !in owner && rest != [] && '\n' !in rest && l.path == GithubPathOf(owner, rest)
    ensures Classify(l) == Download(l.url)
  {
    GithubFilesPathOf(owner, rest);
  }

  lemma AcceptedPasteEe(l: Link, id: string, rest: string)
    requires l.query == "" && l.hostname == PasteEe
    requires id != [] && '/' !in id && rest != [] && '\n' !in rest && l.path == PasteEePathOf(id, rest)
    ensures Classify(l) == Download(l.scheme + "://paste.ee/d/" + id + "/" + rest)
  {
    PasteEePathOfSound(id, rest);
    assert l.scheme + "://" + l.hostname + "/d" + l.path[2..] == l.scheme + "://paste.ee/d/" + id + "/" + rest;
  }

  /** A query string on a whitelisted host makes the link suspicious. */
  lemma QueryIsSuspicious(l: Link)
    requires l.query != ""
    requires l.hostname in {Pastebin, PasteEe, Mclogs} || (l.hostname == Github && GithubFilesPath(l.path))
    ensures Classify(l) == Suspicious
  {
  }
}
