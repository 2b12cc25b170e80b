/** The content snapshot of a share folder (src/daemon.rs): its manifest and its version hash. */
module Snapshot {
  import opened Orders
  import opened KeyRing

  type Bytes = seq<Byte>

  /** A relative path by its components. */
  type Path = seq<string>

  /** Regular files by path; directories are implied. */
  type Tree = map<Path, Bytes>

  const PEERDUP_DIR_NAME := ".peerdup"
  const DIGEST_LEN := 32
  const LENGTH_LEN := 8

  /** Whether a walk of the tree reports the file: names equal to `.peerdup` are skipped at any depth. */
  predicate Visible(p: Path) {
    p != [] && PEERDUP_DIR_NAME !in p
  }

  function Collected(tree: Tree): set<Path> {
    set p | p in tree && Visible(p)
  }

  // ---- The walk ----

  /** A directory as the file system lists it. */
  datatype Listed = End | Entry(name: string, node: Node, rest: Listed)

  datatype Node = File(bytes: Bytes) | Dir(entries: Listed)

  /** The files under a directory at `at`, in the order of the listing. An entry named `.peerdup` is
      skipped, and so is all that is below it. */
  function Walk(dir: Listed, at: Path): seq<Path> {
    match dir
    case End => []
    case Entry(name, node, rest) =>
      var here :=
        if name == PEERDUP_DIR_NAME then []
        else
          match node
          case File(_) => [at + [name]]
          case Dir(inner) => Walk(inner, at + [name]);
      here + Walk(rest, at)
  }

  /** A file has the path `p` below the directory. */
  predicate HasFile(dir: Listed, p: Path) {
    match dir
    case End => false
    case Entry(name, node, rest) =>
      || HasFile(rest, p)
      || (p != [] && p[0] == name && if node.Dir? then HasFile(node.entries, p[1..]) else |p| == 1)
  }

  lemma {:induction false} WalkStaysBelow(dir: Listed, at: Path, q: Path)
    requires q in Walk(dir, at)
    ensures |at| < |q| && forall i :: 0 <= i < |at| ==> at[i] == q[i]
  {
    if q in Walk(dir.rest, at) {
      WalkStaysBelow(dir.rest, at, q);
    } else if dir.node.Dir? {
      WalkStaysBelow(dir.node.entries, at + [dir.name], q);
    }
  }

  lemma SameAfter(at: Path, p: Path, q: Path)
    ensures at + p == at + q <==> p == q
  {
    assert (at + p)[|at|..] == p && (at + q)[|at|..] == q;
  }

  lemma {:induction false} NoEmptyPath(dir: Listed)
    ensures !HasFile(dir, [])
  {
    if dir.Entry? {
      NoEmptyPath(dir.rest);
    }
  }

  /** The walk reports exactly the files that have no component `.peerdup`, at any depth. */
  lemma {:induction false} WalkReportsVisible(dir: Listed, at: Path, p: Path)
    ensures at + p in Walk(dir, at) <==> HasFile(dir, p) && Visible(p)
    ensures Visible(p) <==> p != [] && ".peerdup" !in p
    decreases dir, 0
  {
    match dir
    case End =>
    case Entry(name, node, rest) =>
      WalkReportsVisible(rest, at, p);
      match node
      case File(_) => SameAfter(at, p, [name]);
      case Dir(inner) => SubdirectoryReports(name, inner, at, p);
  }

  lemma {:induction false} SubdirectoryReports(name: string, inner: Listed, at: Path, p: Path)
    ensures name != PEERDUP_DIR_NAME && at + p in Walk(inner, at + [name]) <==>
            Visible(p) && p[0] == name && HasFile(inner, p[1..])
    decreases inner, 1
  {
    var here := at + [name];
    assert here[|at|] == name;
    if p != [] && p[0] == name {
      assert at + p == here + p[1..] && p == [p[0]] + p[1..];
      WalkReportsVisible(inner, here, p[1..]);
      NoEmptyPath(inner);
    } else if at + p in Walk(inner, here) {
      WalkStaysBelow(inner, here, at + p);
    }
  }

  /** The user's content. */
  function Content(tree: Tree): Tree {
    map p | p in tree && Visible(p) :: tree[p]
  }

  /** The file digest, the bytes of a path, and the hex digest of the whole stream. */
  datatype Hashing = Hashing(digest: Bytes -> Bytes, text: Path -> Bytes, top: Bytes -> string)

  /** What one file feeds to the version hash: the length of its path in 8 little-endian bytes, the
      path, and the digest of its content. */
  function Frame(h: Hashing, p: Path, content: Bytes): Bytes {
    LittleEndian(|h.text(p)|, LENGTH_LEN) + h.text(p) + h.digest(content)
  }

  function Stream(h: Hashing, tree: Tree, paths: seq<Path>): Bytes
    requires forall p :: p in paths ==> p in tree
  {
    if paths == [] then [] else Frame(h, paths[0], tree[paths[0]]) + Stream(h, tree, paths[1..])
  }

  /** Some listing of a set of paths. */
  ghost function Listing(paths: set<Path>): (s: seq<Path>)
    ensures multiset(s) == multiset(paths)
  {
    if paths == {} then []
    else
      var p :| p in paths;
      [p] + Listing(paths - {p})
  }

  lemma ListedPaths(paths: set<Path>, listing: seq<Path>)
    requires multiset(listing) == multiset(paths)
    ensures forall p :: p in listing <==> p in paths
    ensures forall p :: p in SortBy(PathLess, listing) <==> p in paths
  {
    forall p ensures p in listing <==> p in paths {
      assert p in listing <==> p in multiset(listing);
    }
    forall p ensures p in SortBy(PathLess, listing) <==> p in paths {
      assert p in SortBy(PathLess, listing) <==> p in multiset(SortBy(PathLess, listing));
    }
  }

  ghost function SortedPaths(tree: Tree): (s: seq<Path>)
    ensures forall p :: p in s <==> p in Collected(tree)
  {
    ListedPaths(Collected(tree), Listing(Collected(tree)));
    SortBy(PathLess, Listing(Collected(tree)))
  }

  ghost function VersionHash(h: Hashing, tree: Tree): string {
    h.top(Stream(h, tree, SortedPaths(tree)))
  }

  /** The hashes do not collide between these two trees, and their paths are distinct text of
      representable length. */
  ghost predicate NoCollision(h: Hashing, t1: Tree, t2: Tree) {
    && FilesDistinct(h, t1, t2)
    && (VersionHash(h, t1) == VersionHash(h, t2) ==> Stream(h, t1, SortedPaths(t1)) == Stream(h, t2, SortedPaths(t2)))
  }

  ghost predicate FilesDistinct(h: Hashing, t1: Tree, t2: Tree) {
    && (forall b :: |h.digest(b)| == DIGEST_LEN)
    && (forall p :: p in t1 || p in t2 ==> |h.text(p)| < Pow256(LENGTH_LEN))
    && (forall p, q :: p in t1 && q in t2 && h.text(p) == h.text(q) ==> p == q)
    && (forall p, q :: p in t1 && q in t2 && h.digest(t1[p]) == h.digest(t2[q]) ==> t1[p] == t2[q])
  }

  /** Feeds the files to the hash one by one. */
  method StreamFiles(h: Hashing, tree: Tree, paths: seq<Path>) returns (stream: Bytes, manifest: set<Path>)
    requires forall p :: p in paths ==> p in tree
    ensures stream == Stream(h, tree, paths)
    ensures forall p :: p in manifest <==> p in paths
  {
    stream, manifest := [], {};
    var i := 0;
    while i < |paths|
      invariant 0 <= i <= |paths|
      invariant stream + Stream(h, tree, paths[i..]) == Stream(h, tree, paths)
      invariant forall p :: p in manifest <==> p in paths[..i]
    {
      var rel := paths[i];
      assert paths[i..][1..] == paths[i + 1..] && paths[..i + 1] == paths[..i] + [rel];
      StreamAppend(stream, Frame(h, rel, tree[rel]), Stream(h, tree, paths[i + 1..]));
      stream := stream + Frame(h, rel, tree[rel]);
      manifest := manifest + {rel};
      i := i + 1;
    }
    assert paths[i..] == [] && paths[..i] == paths && stream + [] == stream;
  }

  lemma StreamAppend(a: Bytes, b: Bytes, c: Bytes)
    ensures a + (b + c) == (a + b) + c
  {
  }

  /** The order in which directories are listed does not matter. */
  lemma ListingOrderIsIrrelevant(tree: Tree, listing: seq<Path>)
    requires multiset(listing) == multiset(Collected(tree))
    ensures SortBy(PathLess, listing) == SortedPaths(tree)
  {
    PathOrderTotal();
    SortForgetsOrder(PathLess, listing, Listing(Collected(tree)));
  }

  /** `listing` is what the walk reported, in whatever order the directories came. */
  method SnapshotContent(h: Hashing, tree: Tree, listing: seq<Path>) returns (hash: string, manifest: set<Path>)
    requires multiset(listing) == multiset(Collected(tree))
    ensures hash == VersionHash(h, tree) && manifest == Collected(tree)
  {
    ListingOrderIsIrrelevant(tree, listing);
    var paths := SortBy(PathLess, listing);
    var stream, files := StreamFiles(h, tree, paths);
    hash, manifest := h.top(stream), files;
  }

  lemma SplitEqual(a: Bytes, s: Bytes, b: Bytes, t: Bytes)
    requires |a| == |b| && a + s == b + t
    ensures a == b && s == t
  {
    assert (a + s)[..|a|] == a && (b + t)[..|b|] == b;
    assert (a + s)[|a|..] == s && (b + t)[|b|..] == t;
  }

  lemma FrameParts(h: Hashing, p: Path, x: Bytes, s: Bytes)
    ensures Frame(h, p, x) + s == LittleEndian(|h.text(p)|, LENGTH_LEN) + (h.text(p) + (h.digest(x) + s))
  {
  }

  /** A frame can be told apart from whatever follows it. */
  lemma FrameDecodes(h: Hashing, p: Path, x: Bytes, s: Bytes, q: Path, y: Bytes, t: Bytes)
    requires |h.digest(x)| == |h.digest(y)|
    requires |h.text(p)| < Pow256(LENGTH_LEN) && |h.text(q)| < Pow256(LENGTH_LEN)
    requires Frame(h, p, x) + s == Frame(h, q, y) + t
    ensures h.text(p) == h.text(q) && h.digest(x) == h.digest(y) && s == t
  {
    FrameParts(h, p, x, s);
    FrameParts(h, q, y, t);
    SplitEqual(LittleEndian(|h.text(p)|, LENGTH_LEN), h.text(p) + (h.digest(x) + s),
               LittleEndian(|h.text(q)|, LENGTH_LEN), h.text(q) + (h.digest(y) + t));
    LittleEndianRoundTrip(|h.text(p)|, LENGTH_LEN);
    LittleEndianRoundTrip(|h.text(q)|, LENGTH_LEN);
    SplitEqual(h.text(p), h.digest(x) + s, h.text(q), h.digest(y) + t);
    SplitEqual(h.digest(x), s, h.digest(y), t);
  }

  lemma FirstFileDecodes(h: Hashing, t1: Tree, p: Path, s: Bytes, t2: Tree, q: Path, t: Bytes)
    requires FilesDistinct(h, t1, t2) && p in t1 && q in t2
    requires Frame(h, p, t1[p]) + s == Frame(h, q, t2[q]) + t
    ensures p == q && t1[p] == t2[q] && s == t
  {
    FrameDecodes(h, p, t1[p], s, q, t2[q], t);
  }

  /** The byte stream is uniquely decodable. */
  lemma {:induction false} StreamDecodes(h: Hashing, t1: Tree, s1: seq<Path>, t2: Tree, s2: seq<Path>)
    requires FilesDistinct(h, t1, t2)
    requires (forall p :: p in s1 ==> p in t1) && (forall p :: p in s2 ==> p in t2)
    requires Stream(h, t1, s1) == Stream(h, t2, s2)
    ensures s1 == s2 && forall p :: p in s1 ==> t1[p] == t2[p]
    decreases |s1|
  {
    if s1 != [] && s2 != [] {
      assert s1 == [s1[0]] + s1[1..] && s2 == [s2[0]] + s2[1..];
      FirstFileDecodes(h, t1, s1[0], Stream(h, t1, s1[1..]), t2, s2[0], Stream(h, t2, s2[1..]));
      StreamDecodes(h, t1, s1[1..], t2, s2[1..]);
    }
  }

  lemma {:induction false} StreamOfEqualTrees(h: Hashing, t1: Tree, t2: Tree, s: seq<Path>)
    requires forall p :: p in s ==> p in t1 && p in t2 && t1[p] == t2[p]
    ensures Stream(h, t1, s) == Stream(h, t2, s)
  {
    if s != [] {
      StreamOfEqualTrees(h, t1, t2, s[1..]);
    }
  }

  lemma SamePathsSameContent(t1: Tree, t2: Tree)
    requires SortedPaths(t1) == SortedPaths(t2) && forall p :: p in SortedPaths(t1) ==> p in t1 && p in t2 && t1[p] == t2[p]
    ensures Content(t1) == Content(t2)
  {
    forall p ensures p in Content(t1) <==> p in Content(t2) {
      assert p in Content(t1) <==> p in SortedPaths(t1);
      assert p in Content(t2) <==> p in SortedPaths(t2);
    }
    forall p | p in Content(t1) ensures Content(t1)[p] == Content(t2)[p] {
      assert p in SortedPaths(t1);
    }
  }

  lemma SameContentSameHash(h: Hashing, t1: Tree, t2: Tree)
    requires Content(t1) == Content(t2)
    ensures VersionHash(h, t1) == VersionHash(h, t2)
  {
    assert Collected(t1) == Content(t1).Keys && Collected(t2) == Content(t2).Keys;
    forall p | p in SortedPaths(t1) ensures p in t1 && p in t2 && t1[p] == t2[p] {
      assert p in Content(t1) && Content(t1)[p] == Content(t2)[p];
    }
    StreamOfEqualTrees(h, t1, t2, SortedPaths(t1));
  }

  /** Version hashes are equal exactly when the contents are: same paths, same bytes. */
  lemma VersionHashIdentifiesContent(h: Hashing, t1: Tree, t2: Tree)
    requires NoCollision(h, t1, t2)
    ensures VersionHash(h, t1) == VersionHash(h, t2) <==> Content(t1) == Content(t2)
  {
    if VersionHash(h, t1) == VersionHash(h, t2) {
      StreamDecodes(h, t1, SortedPaths(t1), t2, SortedPaths(t2));
      SamePathsSameContent(t1, t2);
    }
    if Content(t1) == Content(t2) {
      SameContentSameHash(h, t1, t2);
    }
  }
}
