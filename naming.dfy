/** Where the downloader writes an image and its metadata: the file extension
    normalisation `ext`, the artist directory `getArtistFromTags`, and the
    artifact and sidecar paths built from them (main.go). */
module Naming {
  import opened GoStrings

  // ------------------------------------------------------------------ ext

  /** ext: path.Ext of the URL, lower-cased, with ".jpeg" renamed ".jpg". */
  function Ext(url: string): string
  {
    NormalizeExt(PathExt(url))
  }

  /** The normalisation ext applies to the extension path.Ext found. */
  function NormalizeExt(e: string): string
  {
    var l := ToLowerAscii(e);
    if l == ".jpeg" then ".jpg" else l
  }

  /** What ext returns: "" exactly when the last element of the URL has no
      '.', otherwise a '.' followed by neither '.' nor '/'; it never holds an
      upper-case ASCII letter and is never ".jpeg". */
  lemma ExtShape(url: string)
    ensures Ext(url) == [] <==> '.' !in LastElement(url)
    ensures Ext(url) == [] || (Ext(url)[0] == '.' && NoDotOrSlash(Ext(url)[1..]))
    ensures '/' !in Ext(url)
    ensures forall i :: 0 <= i < |Ext(url)| ==> !IsUpper(Ext(url)[i])
    ensures Ext(url) != ".jpeg"
  {
    PathExtShape(url);
    NormalizeExtShape(PathExt(url));
  }

  /** Normalising keeps the shape of an extension, is empty only for the
      empty extension, and leaves no upper-case letter and no ".jpeg". */
  lemma NormalizeExtShape(e: string)
    requires e == [] || (e[0] == '.' && NoDotOrSlash(e[1..]))
    ensures NormalizeExt(e) == [] <==> e == []
    ensures NormalizeExt(e) == [] || (NormalizeExt(e)[0] == '.' && NoDotOrSlash(NormalizeExt(e)[1..]))
    ensures '/' !in NormalizeExt(e)
    ensures forall i :: 0 <= i < |NormalizeExt(e)| ==> !IsUpper(NormalizeExt(e)[i])
    ensures NormalizeExt(e) != ".jpeg"
  {
    LowerKeepsExtShape(e);
    var n := NormalizeExt(e);
    if n == ".jpg" {
      assert NoDotOrSlash(n[1..]);
    }
    ExtShapeNoSlash(n);
  }

  lemma ExtShapeNoSlash(e: string)
    requires e == [] || (e[0] == '.' && NoDotOrSlash(e[1..]))
    ensures '/' !in e
  {
    if e != [] {
      assert forall i :: 0 < i < |e| ==> e[i] == e[1..][i - 1];
    }
  }

  /** Lower-casing keeps the shape of an extension and leaves no upper-case
      letter. */
  lemma LowerKeepsExtShape(e: string)
    requires e == [] || (e[0] == '.' && NoDotOrSlash(e[1..]))
    ensures |ToLowerAscii(e)| == |e|
    ensures ToLowerAscii(e) == [] || (ToLowerAscii(e)[0] == '.' && NoDotOrSlash(ToLowerAscii(e)[1..]))
    ensures forall i :: 0 <= i < |e| ==> !IsUpper(ToLowerAscii(e)[i])
  {
    var l := ToLowerAscii(e);
    forall i | 0 <= i < |e| ensures !IsUpper(l[i]) && (l[i] == '.' <==> e[i] == '.') && (l[i] == '/' <==> e[i] == '/') {
      assert l[i] == LowerChar(e[i]);
    }
    if e != [] {
      forall i | 0 <= i < |l[1..]| ensures l[1..][i] != '.' && l[1..][i] != '/' {
        assert l[1..][i] == l[i + 1] && e[1..][i] == e[i + 1];
      }
    }
  }

  /** Only the last '/'-separated element of the URL decides its extension. */
  lemma ExtLastElement(q: string, s: string)
    requires '/' !in s
    ensures Ext(q + "/" + s) == Ext(s)
  {
    PathExtLastElement(q, s);
  }

  /** ext is idempotent: its output is already a normalised extension. */
  lemma ExtIdempotent(url: string)
    ensures Ext(Ext(url)) == Ext(url)
  {
    var e := PathExt(url);
    PathExtShape(url);
    NormalizeExtShape(e);
    var n := NormalizeExt(e);
    if n != [] {
      PathExtOfSuffix([], n);
      assert [] + n == n;
    }
    NormalizeExtIdempotent(e);
  }

  lemma NormalizeExtIdempotent(e: string)
    requires e == [] || (e[0] == '.' && NoDotOrSlash(e[1..]))
    ensures NormalizeExt(NormalizeExt(e)) == NormalizeExt(e)
  {
    NormalizeExtShape(e);
    var n := NormalizeExt(e);
    assert ToLowerAscii(n) == n;
  }

  /** ".jpeg" in any letter case is written as ".jpg". */
  lemma ExtJpegAlias(q: string, e: string)
    requires |e| == 5 && e[0] == '.'
    requires ToLowerAscii(e) == ".jpeg"
    ensures Ext(q + e) == ".jpg"
  {
    assert NoDotOrSlash(e[1..]) by {
      forall i | 0 <= i < 4 ensures e[1..][i] != '.' && e[1..][i] != '/' {
        assert LowerChar(e[i + 1]) == ".jpeg"[i + 1];
      }
    }
    PathExtOfSuffix(q, e);
  }

  // ------------------------------------------------------ getArtistFromTags

  const ArtistPrefix: string := "artist:"
  const Separator: string := "-&-"
  const MaxDirLength: nat := 200
  const Unknown: string := "unknown"

  /** strings.HasPrefix(tag, "artist:") */
  predicate IsArtistTag(tag: string) {
    ArtistPrefix <= tag
  }

  /** The artist name of an "artist:" tag: what follows the first ':', with
      every '/' replaced by '_'. */
  function ArtistName(tag: string): (name: string)
    requires IsArtistTag(tag)
    ensures '/' !in name
  {
    assert tag[6] == ArtistPrefix[6];
    ReplaceSlashes(AfterFirstColon(tag))
  }

  /** The name is the tag without its leading "artist:" (later colons kept),
      slashes replaced. */
  lemma ArtistNameStripsPrefix(tag: string)
    requires IsArtistTag(tag)
    ensures ':' in tag && AfterFirstColon(tag) == tag[|ArtistPrefix|..]
    ensures ArtistName(tag) == ReplaceSlashes(tag[|ArtistPrefix|..])
  {
    assert tag[6] == ArtistPrefix[6];
    var k := |tag| - |AfterFirstColon(tag)| - 1;
    assert k >= 6 by {
      forall j | 0 <= j < 6 ensures tag[j] != ':' {
        assert tag[j] == ArtistPrefix[j];
      }
    }
  }

  /** The names of the artist tags of `tags`, in tag order (the `artists`
      slice before sorting). */
  function ArtistNames(tags: seq<string>): seq<string>
  {
    if tags == [] then []
    else
      var t := tags[|tags| - 1];
      ArtistNames(tags[..|tags| - 1]) + (if IsArtistTag(t) then [ArtistName(t)] else [])
  }

  /** getArtistFromTags: the sorted artist names joined by "-&-" and cut to 200
      bytes, or "unknown" when no tag is an artist tag. */
  function ArtistDir(tags: seq<string>): string
  {
    var names := ArtistNames(tags);
    if |names| > 0 then Truncate(Join(SortStrings(names), Separator)) else Unknown
  }

  /** `s` cut to at most 200 bytes (Go's s[:200], which may split a UTF-8 sequence). */
  function Truncate(s: string): string {
    if |s| > MaxDirLength then s[..MaxDirLength] else s
  }

  /** The directory is "unknown" when there are no artist names; otherwise it
      is at most 200 bytes, a prefix of the join of the sorted names, and all
      of that join when it fits. It never contains a '/'. */
  lemma ArtistDirShape(tags: seq<string>)
    ensures ArtistNames(tags) == [] ==> ArtistDir(tags) == Unknown
    ensures ArtistNames(tags) != [] ==>
      var joined := Join(SortStrings(ArtistNames(tags)), Separator);
      |ArtistDir(tags)| <= MaxDirLength && IsPrefix(ArtistDir(tags), joined) &&
      (|joined| <= MaxDirLength ==> ArtistDir(tags) == joined)
    ensures '/' !in ArtistDir(tags)
  {
    var names := ArtistNames(tags);
    if |names| > 0 {
      var joined := Join(SortStrings(names), Separator);
      SortedNamesNoSlash(tags);
      JoinAvoids(SortStrings(names), Separator, '/');
      TruncateShape(joined);
      TruncateAvoids(joined, '/');
    }
  }

  /** No sorted artist name contains a '/'. */
  lemma SortedNamesNoSlash(tags: seq<string>)
    ensures forall i :: 0 <= i < |SortStrings(ArtistNames(tags))| ==> '/' !in SortStrings(ArtistNames(tags))[i]
  {
    var names := ArtistNames(tags);
    var sorted := SortStrings(names);
    forall i | 0 <= i < |sorted| ensures '/' !in sorted[i] {
      assert sorted[i] in multiset(sorted);
      ArtistNamesNoSlash(tags, sorted[i]);
    }
  }

  /** Truncation keeps a prefix of at most 200 bytes, and all of a string
      that fits. */
  lemma TruncateShape(s: string)
    ensures |Truncate(s)| <= MaxDirLength && IsPrefix(Truncate(s), s)
    ensures |s| <= MaxDirLength ==> Truncate(s) == s
  {
  }

  lemma TruncateAvoids(s: string, c: char)
    requires c !in s
    ensures c !in Truncate(s)
  {
    assert forall i :: 0 <= i < |Truncate(s)| ==> Truncate(s)[i] == s[i];
  }

  lemma {:induction false} ArtistNamesNoSlash(tags: seq<string>, name: string)
    requires name in ArtistNames(tags)
    ensures '/' !in name
  {
    if tags != [] && name in ArtistNames(tags[..|tags| - 1]) {
      ArtistNamesNoSlash(tags[..|tags| - 1], name);
    }
  }

  /** getArtistFromTags as the source writes it: a loop appending each artist
      name, then sort, join and truncate. */
  method ArtistFromTags(tags: seq<string>) returns (dir: string)
    ensures dir == ArtistDir(tags)
  {
    var artists: seq<string> := [];
    for i := 0 to |tags|
      invariant artists == ArtistNames(tags[..i])
    {
      var tag := tags[i];
      assert tags[..i + 1][..i] == tags[..i];
      if IsArtistTag(tag) {
        assert tag[6] == ArtistPrefix[6];
        artists := artists + [ReplaceSlashes(AfterFirstColon(tag))];
      }
    }
    assert tags[..|tags|] == tags;
    if |artists| > 0 {
      artists := SortStrings(artists);  // sort.Strings sorts in place
      dir := Join(artists, Separator);
      if |dir| > MaxDirLength {
        dir := dir[..MaxDirLength];
      }
      return;
    }
    dir := Unknown;
  }

  /** There is no artist name exactly when no tag starts with "artist:". */
  lemma {:induction false} ArtistNamesEmpty(tags: seq<string>)
    ensures ArtistNames(tags) == [] <==> forall i :: 0 <= i < |tags| ==> !IsArtistTag(tags[i])
  {
    if tags != [] {
      var init := tags[..|tags| - 1];
      ArtistNamesEmpty(init);
      assert forall i :: 0 <= i < |init| ==> init[i] == tags[i];
    }
  }

  /** Without artist tags the directory is "unknown". */
  lemma NoArtistIsUnknown(tags: seq<string>)
    requires forall i :: 0 <= i < |tags| ==> !IsArtistTag(tags[i])
    ensures ArtistDir(tags) == Unknown
  {
    ArtistNamesEmpty(tags);
  }

  /** The names are exactly those of the artist tags. */
  lemma {:induction false} ArtistNamesMembers(tags: seq<string>, name: string)
    ensures name in ArtistNames(tags) <==>
      exists i :: 0 <= i < |tags| && IsArtistTag(tags[i]) && ArtistName(tags[i]) == name
  {
    if tags != [] {
      var init := tags[..|tags| - 1];
      ArtistNamesMembers(init, name);
      assert forall i :: 0 <= i < |init| ==> init[i] == tags[i];
      if exists i :: 0 <= i < |tags| && IsArtistTag(tags[i]) && ArtistName(tags[i]) == name {
        var i :| 0 <= i < |tags| && IsArtistTag(tags[i]) && ArtistName(tags[i]) == name;
        if i < |init| {
          assert init[i] == tags[i];
        }
      }
    }
  }

  lemma {:induction false} ArtistNamesAppend(a: seq<string>, b: seq<string>)
    ensures ArtistNames(a + b) == ArtistNames(a) + ArtistNames(b)
    decreases |b|
  {
    if b == [] {
      assert a + b == a;
    } else {
      var b' := b[..|b| - 1];
      assert (a + b)[..|a + b| - 1] == a + b';
      ArtistNamesAppend(a, b');
    }
  }

  /** Duplicate artist tags give duplicate names: each occurrence of an artist
      tag contributes its name once. */
  lemma {:induction false} ArtistNamesKeepDuplicates(tags: seq<string>, tag: string)
    requires IsArtistTag(tag)
    ensures multiset(ArtistNames(tags))[ArtistName(tag)] >= multiset(tags)[tag]
  {
    if tags != [] {
      var init := tags[..|tags| - 1];
      ArtistNamesKeepDuplicates(init, tag);
      assert tags == init + [tags[|tags| - 1]];
    }
  }

  /** The multiset of names depends only on the multiset of tags. */
  lemma {:induction false} ArtistNamesPermutation(t1: seq<string>, t2: seq<string>)
    requires multiset(t1) == multiset(t2)
    ensures multiset(ArtistNames(t1)) == multiset(ArtistNames(t2))
    decreases |t1|
  {
    if t1 != [] {
      var x := t1[|t1| - 1];
      var init := t1[..|t1| - 1];
      assert t1 == init + [x];
      assert x in multiset(t2);
      var k :| 0 <= k < |t2| && t2[k] == x;
      var u, v := t2[..k], t2[k + 1..];
      assert t2 == u + [x] + v;
      assert multiset(t1) == multiset(init) + multiset{x};
      assert multiset(t2) == multiset(u) + multiset{x} + multiset(v);
      assert multiset(u + v) == multiset(u) + multiset(v);
      assert multiset(init) == multiset(t1) - multiset{x};
      assert multiset(init) == multiset(u + v);
      assert |multiset(t1)| == |t1| && |multiset(t2)| == |t2|;
      ArtistNamesPermutation(init, u + v);
      ArtistNamesAppend(u, v);
      ArtistNamesAppend(init, [x]);
      ArtistNamesAppend(u + [x], v);
      ArtistNamesAppend(u, [x]);
    } else {
      assert |multiset(t2)| == |t2|;
    }
  }

  /** The directory does not depend on the order of the tags. */
  lemma ArtistDirPermutation(t1: seq<string>, t2: seq<string>)
    requires multiset(t1) == multiset(t2)
    ensures ArtistDir(t1) == ArtistDir(t2)
  {
    ArtistNamesPermutation(t1, t2);
    SortPermutationInvariant(ArtistNames(t1), ArtistNames(t2));
    assert |ArtistNames(t1)| == |multiset(ArtistNames(t1))| == |multiset(ArtistNames(t2))| == |ArtistNames(t2)|;
  }

  // ------------------------------------------------------------ output paths

  /** dir + "/" + strconv.Itoa(id): the base name shared by an image and its
      metadata file. */
  function Stem(dir: string, id: int): string {
    dir + "/" + Itoa(id)
  }

  /** The image file: dir + "/" + itoa(id) + ext(url). */
  function ArtifactPath(dir: string, id: int, url: string): string {
    Stem(dir, id) + Ext(url)
  }

  /** The metadata sidecar: dir + "/" + itoa(id) + ".json". */
  function SidecarPath(dir: string, id: int): string {
    Stem(dir, id) + ".json"
  }

  /** x + e1 == y + e2, where neither x nor y holds a '.', and each e is empty
      or starts with '.', forces x == y. */
  lemma SplitAtFirstDot(x: string, e1: string, y: string, e2: string)
    requires '.' !in x && '.' !in y
    requires e1 == [] || e1[0] == '.'
    requires e2 == [] || e2[0] == '.'
    requires x + e1 == y + e2
    ensures x == y
  {
    assert x == (x + e1)[..|x|];
    assert y == (y + e2)[..|y|];
  }

  lemma ItoaHasNoDot(id: int)
    ensures '.' !in Itoa(id)
  {
  }

  /** In one directory, distinct ids give distinct image paths, whatever
      their URLs. */
  lemma ArtifactPathInjective(dir: string, a: int, urlA: string, b: int, urlB: string)
    requires ArtifactPath(dir, a, urlA) == ArtifactPath(dir, b, urlB)
    ensures a == b
  {
    ItoaHasNoDot(a);
    ItoaHasNoDot(b);
    ExtShape(urlA);
    ExtShape(urlB);
    StemDigitsEqual(dir + "/", Itoa(a), Ext(urlA), Itoa(b), Ext(urlB));
    ItoaInjective(a, b);
  }

  lemma StemDigitsEqual(pre: string, x: string, e1: string, y: string, e2: string)
    requires '.' !in x && '.' !in y
    requires e1 == [] || e1[0] == '.'
    requires e2 == [] || e2[0] == '.'
    requires pre + x + e1 == pre + y + e2
    ensures x == y
  {
    assert pre + x + e1 == pre + (x + e1);
    assert pre + y + e2 == pre + (y + e2);
    DropCommonPrefix(pre, x + e1, y + e2);
    SplitAtFirstDot(x, e1, y, e2);
  }

  lemma DropCommonPrefix(pre: string, s1: string, s2: string)
    requires pre + s1 == pre + s2
    ensures s1 == s2
  {
    assert s1 == (pre + s1)[|pre|..];
    assert s2 == (pre + s2)[|pre|..];
  }

  /** The sidecar sits beside the image under the same base name, and the two
      paths coincide exactly when the URL's extension is ".json". */
  lemma SidecarBesideArtifact(dir: string, id: int, url: string)
    ensures IsPrefix(Stem(dir, id), ArtifactPath(dir, id, url))
    ensures IsPrefix(Stem(dir, id), SidecarPath(dir, id))
    ensures ArtifactPath(dir, id, url) == SidecarPath(dir, id) <==> Ext(url) == ".json"
  {
    var s := Stem(dir, id);
    if ArtifactPath(dir, id, url) == SidecarPath(dir, id) {
      assert Ext(url) == (s + Ext(url))[|s|..];
      assert ".json" == (s + ".json")[|s|..];
    }
  }
}
