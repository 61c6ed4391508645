/** The request path of a wiki page (src/requests.rs): the URL path after
    the route prefix, as the sequence of its segments, and what the request
    handlers derive from it. */
module Requests {
  import opened Errors

  /** A link in the page header: a directory name and the path it links to
      (the URL `uri!(page(..))` renders from that path). */
  datatype Breadcrumb = Breadcrumb(name: string, target: WikiPagePath)

  datatype WikiPagePath = WikiPagePath(segments: seq<string>) {

    /** Every segment but the last. */
    function Directories(): (r: seq<string>)
      ensures |segments| == 0 ==> r == []
      ensures |segments| > 0 ==> r + [segments[|segments| - 1]] == segments
    {
      if |segments| == 0 then [] else segments[..|segments| - 1]
    }

    /** The last segment split at its last '.' into stem and extension. */
    function FileNameAndExtension(): Option<(string, string)>
    {
      if |segments| == 0 then None else RSplitOnce(segments[|segments| - 1], '.')
    }

    function FileName(): Option<string>
    {
      match FileNameAndExtension()
      case None => None
      case Some((stem, _)) => Some(stem)
    }

    function FileExtension(): Option<string>
    {
      match FileNameAndExtension()
      case None => None
      case Some((_, ext)) => Some(ext)
    }

    /** `create_breadcrumbs`: walks the directories from the deepest up,
        pushing one crumb per directory, then reverses the list. */
    method CreateBreadcrumbs() returns (r: seq<Breadcrumb>)
      ensures |r| == |Directories()|
      ensures forall i :: 0 <= i < |r| ==>
        r[i] == Crumb(Directories(), i)
    {
      var all := Directories();
      var dirs := all;
      var ret: seq<Breadcrumb> := [];
      while |dirs| > 0
        invariant |dirs| + |ret| == |all|
        invariant dirs == all[..|dirs|]
        invariant forall j :: 0 <= j < |ret| ==> ret[j] == Crumb(all, |all| - 1 - j)
      {
        var name := dirs[|dirs| - 1];
        assert Breadcrumb(name, WikiPagePath(dirs)) == Crumb(all, |dirs| - 1);
        ret := ret + [Breadcrumb(name, WikiPagePath(dirs))];
        dirs := dirs[..|dirs| - 1];
      }
      r := Reversed(ret);
      assert forall i :: 0 <= i < |r| ==> r[i] == Crumb(all, i);
    }

    /** `Display::fmt`: writes "/" for the empty path, else "/" and the
        segment for each segment in turn. */
    method Fmt() returns (out: string)
      ensures out == DisplayForm(segments)
    {
      if |segments| == 0 {
        out := "/";
      } else {
        out := "";
        for i := 0 to |segments|
          invariant out == SlashJoined(segments[..i])
        {
          assert segments[..i + 1] == segments[..i] + [segments[i]];
          SlashJoinedSnoc(segments[..i], segments[i]);
          out := out + "/" + segments[i];
        }
        assert segments[..|segments|] == segments;
      }
    }
  }

  /** The breadcrumb for directory `i`: its name, linking to the directories
      up to and including it. */
  function Crumb(dirs: seq<string>, i: nat): Breadcrumb
    requires i < |dirs|
  {
    Breadcrumb(dirs[i], WikiPagePath(dirs[..i + 1]))
  }

  /** The index of the last occurrence of `c` in `s`. */
  function LastIndexOf(s: string, c: char): (r: Option<nat>)
    ensures r.Some? ==> r.value < |s| && s[r.value] == c
    ensures r.Some? ==> forall j :: r.value < j < |s| ==> s[j] != c
    ensures r.None? <==> c !in s
  {
    if s == [] then None
    else if s[|s| - 1] == c then Some(|s| - 1)
    else
      var r := LastIndexOf(s[..|s| - 1], c);
      assert r.None? ==> c !in s[..|s| - 1] && s == s[..|s| - 1] + [s[|s| - 1]];
      r
  }

  /** `str::rsplit_once` with a character pattern. */
  function RSplitOnce(s: string, c: char): Option<(string, string)>
  {
    match LastIndexOf(s, c)
    case None => None
    case Some(i) => Some((s[..i], s[i + 1..]))
  }

  /** `Vec::reverse`. */
  function Reversed<T>(s: seq<T>): (r: seq<T>)
    ensures |r| == |s|
    ensures forall i :: 0 <= i < |s| ==> r[i] == s[|s| - 1 - i]
  {
    if s == [] then [] else [s[|s| - 1]] + Reversed(s[..|s| - 1])
  }

  /** "/" + seg for every segment, in order. */
  function SlashJoined(segs: seq<string>): string
  {
    if segs == [] then "" else "/" + segs[0] + SlashJoined(segs[1..])
  }

  /** The text `Display::fmt` writes for a path. */
  function DisplayForm(segs: seq<string>): string
  {
    if segs == [] then "/" else SlashJoined(segs)
  }

  lemma {:induction false} SlashJoinedSnoc(segs: seq<string>, s: string)
    ensures SlashJoined(segs + [s]) == SlashJoined(segs) + "/" + s
  {
    if segs != [] {
      assert (segs + [s])[1..] == segs[1..] + [s];
      SlashJoinedSnoc(segs[1..], s);
    }
  }

  /** `rsplit_once` fails exactly when there is no separator; otherwise the
      two halves put back together around it give the input, and the second
      half holds no separator (the split is at the last one). */
  lemma RSplitOnceSplits(s: string, c: char)
    ensures RSplitOnce(s, c).None? <==> c !in s
    ensures RSplitOnce(s, c).Some? ==>
      var (before, after) := RSplitOnce(s, c).value;
      before + [c] + after == s && c !in after
  {
    if RSplitOnce(s, c).Some? {
      var i := LastIndexOf(s, c).value;
      assert s == s[..i] + [c] + s[i + 1..];
    }
  }

  /** The converse: joining two halves around a separator that does not
      occur in the second half splits back into the same halves. */
  lemma RSplitOnceOfJoin(before: string, after: string, c: char)
    requires c !in after
    ensures RSplitOnce(before + [c] + after, c) == Some((before, after))
  {
    var s := before + [c] + after;
    var i := LastIndexOf(s, c).value;
    assert s[|before|] == c;
    assert i == |before|;
    assert s[..i] == before && s[i + 1..] == after;
  }

  /** `directories` drops exactly the last segment. */
  lemma DirectoriesOfPath(dirs: seq<string>, file: string)
    ensures WikiPagePath(dirs + [file]).Directories() == dirs
  {
    assert (dirs + [file])[..|dirs|] == dirs;
  }

  /** `file_name_and_extension` is None for the empty path and for a last
      segment without '.'; otherwise its stem, '.', and extension make up the
      last segment, and the extension holds no '.'. `file_name` and
      `file_extension` are its two components. */
  lemma FileNameAndExtensionSplitsLast(p: WikiPagePath)
    ensures p.FileNameAndExtension().None? <==>
      (|p.segments| == 0 || '.' !in p.segments[|p.segments| - 1])
    ensures p.FileNameAndExtension().Some? ==>
      var (stem, ext) := p.FileNameAndExtension().value;
      && stem + "." + ext == p.segments[|p.segments| - 1] && '.' !in ext
      && p.FileName() == Some(stem) && p.FileExtension() == Some(ext)
    ensures p.FileNameAndExtension().None? ==> p.FileName().None? && p.FileExtension().None?
  {
    if |p.segments| > 0 {
      RSplitOnceSplits(p.segments[|p.segments| - 1], '.');
    }
  }

  /** A request for `dirs/stem.ext` parses back into its directories, stem and
      extension when the extension holds no '.' (the unit tests' cases
      "README.md", "test/file.txt" and "another/thing/to/test.markdown"). */
  lemma ParsePagePath(dirs: seq<string>, stem: string, ext: string)
    requires '.' !in ext
    ensures var p := WikiPagePath(dirs + [stem + "." + ext]);
      && p.Directories() == dirs
      && p.FileNameAndExtension() == Some((stem, ext))
      && p.FileName() == Some(stem) && p.FileExtension() == Some(ext)
  {
    DirectoriesOfPath(dirs, stem + "." + ext);
    RSplitOnceOfJoin(stem, ext, '.');
  }

  /** What `DisplayFormRoundTrip` assumes of the segments: each is non-empty
      and holds no '/'. */
  predicate RoutableSegments(segs: seq<string>)
  {
    forall i :: 0 <= i < |segs| ==> |segs[i]| > 0 && '/' !in segs[i]
  }

  /** The index of the first '/' in `s`, or |s| when there is none. */
  function SlashIndex(s: string): (r: nat)
    ensures r <= |s| && (r < |s| ==> s[r] == '/')
    ensures forall j :: 0 <= j < r ==> s[j] != '/'
  {
    if s == [] || s[0] == '/' then 0 else 1 + SlashIndex(s[1..])
  }

  /** Reads a display form back into segments: each "/" starts a segment that
      runs up to the next "/". */
  function ParseSlashed(s: string): seq<string>
    decreases |s|
  {
    if s == [] then []
    else
      var k := 1 + SlashIndex(s[1..]);
      [s[1..k]] + ParseSlashed(s[k..])
  }

  function ParseDisplayForm(s: string): seq<string>
  {
    if s == "/" then [] else ParseSlashed(s)
  }

  lemma {:induction false} SlashIndexOfConcat(a: string, b: string)
    requires '/' !in a && (b == [] || b[0] == '/')
    ensures SlashIndex(a + b) == |a|
  {
    if a != [] {
      assert (a + b)[1..] == a[1..] + b;
      SlashIndexOfConcat(a[1..], b);
    }
  }

  lemma {:induction false} ParseSlashedOfJoined(segs: seq<string>)
    requires RoutableSegments(segs)
    ensures ParseSlashed(SlashJoined(segs)) == segs
  {
    if segs != [] {
      var rest := SlashJoined(segs[1..]);
      var s := SlashJoined(segs);
      assert s == "/" + segs[0] + rest;
      assert rest != [] ==> rest[0] == '/';
      assert s[1..] == segs[0] + rest;
      SlashIndexOfConcat(segs[0], rest);
      var k := SlashIndex(s[1..]);
      assert s[1..1 + k] == segs[0];
      assert s[1 + k..] == rest;
      assert RoutableSegments(segs[1..]) by {
        forall i | 0 <= i < |segs[1..]| ensures |segs[1..][i]| > 0 && '/' !in segs[1..][i] {
          assert segs[1..][i] == segs[i + 1];
        }
      }
      ParseSlashedOfJoined(segs[1..]);
    }
  }

  /** The display form determines the path: reading it back gives the
      segments, so two routable paths with the same display form are equal. */
  lemma DisplayFormRoundTrip(segs: seq<string>)
    requires RoutableSegments(segs)
    ensures ParseDisplayForm(DisplayForm(segs)) == segs
    ensures segs == [] <==> DisplayForm(segs) == "/"
  {
    if segs != [] {
      ParseSlashedOfJoined(segs);
      assert |segs[0]| > 0;
      assert |DisplayForm(segs)| > 1;
    }
  }

  /** The display form's shape: it starts with "/", and a path one segment
      longer displays as its prefix's form, "/", and the new segment. */
  lemma DisplayFormExtends(segs: seq<string>, s: string)
    ensures DisplayForm(segs)[0] == '/'
    ensures segs != [] ==> DisplayForm(segs + [s]) == DisplayForm(segs) + "/" + s
    ensures DisplayForm([s]) == "/" + s
  {
    SlashJoinedSnoc(segs, s);
    assert [s][1..] == [];
    assert SlashJoined([s]) == "/" + s + "";
  }
}
