/**
 * The storage server's `add` handler (storage-server/__init__.py): a nested
 * mapping comic -> episode -> page URLs becomes a list of download tasks, one
 * per page, each naming the file `mnt/comics/<comic>/<episode>/<NNN><ext>`,
 * and every task is handed to the downloader in order.
 */
module Storage {
  import opened Wrappers
  import opened PyPath

  /** A download job: where the page goes and where it comes from. */
  datatype Task = Task(path: string, url: string)

  /** The request body: comics in insertion order, each with its episodes in insertion order. */
  type Episodes = seq<(string, seq<string>)>
  type NamingTree = seq<(string, Episodes)>

  /**
   * `mount_point` is `Path("mnt").resolve()`: an absolute, normalised path, given
   * here by its components (the working directory is not part of the model).
   */
  predicate ValidMount(mount: seq<string>) {
    AllPathSafe(mount)
  }

  /** The file name of page `num`: `f"{str(num).zfill(3)}{os.path.splitext(url)[1]}"`. */
  function FileName(num: nat, url: string): string {
    Ordinal(num) + SplitExt(url).1
  }

  /**
   * `str(mount_point / "comics" / comic / episode / FileName(num, url))`, each
   * `/` as pathlib performs it: a name starting with '/' starts the path over,
   * and "" or "." adds nothing.
   */
  function PagePath(mount: seq<string>, comic: string, episode: string, num: nat, url: string): string {
    Str(JoinAll(PurePath("/", mount), ["comics", comic, episode, FileName(num, url)]))
  }

  /** The tasks of one episode: `for (num, url) in enumerate(pages)`. */
  function EpisodeTasks(mount: seq<string>, comic: string, episode: string, pages: seq<string>): seq<Task> {
    seq(|pages|, num requires 0 <= num < |pages| => Task(PagePath(mount, comic, episode, num, pages[num]), pages[num]))
  }

  /** The tasks of one comic: `for (eposide_name, pages) in eposides.items()`. */
  function ComicTasks(mount: seq<string>, comic: string, episodes: Episodes): seq<Task> {
    if episodes == [] then []
    else EpisodeTasks(mount, comic, episodes[0].0, episodes[0].1) + ComicTasks(mount, comic, episodes[1..])
  }

  /** The whole comprehension: `for (comic_name, eposides) in comics.items()`. */
  function DeriveTasks(mount: seq<string>, comics: NamingTree): seq<Task> {
    if comics == [] then []
    else ComicTasks(mount, comics[0].0, comics[0].1) + DeriveTasks(mount, comics[1..])
  }

  // ---------------------------------------------------------------------------
  // Counting

  function EpisodePages(episodes: Episodes): nat {
    if episodes == [] then 0 else |episodes[0].1| + EpisodePages(episodes[1..])
  }

  /** The number of page URLs across all episodes of all comics. */
  function TotalPages(comics: NamingTree): nat {
    if comics == [] then 0 else EpisodePages(comics[0].1) + TotalPages(comics[1..])
  }

  lemma {:induction false} ComicTasksCount(mount: seq<string>, comic: string, episodes: Episodes)
    ensures |ComicTasks(mount, comic, episodes)| == EpisodePages(episodes)
    decreases |episodes|
  {
    if episodes != [] {
      ComicTasksCount(mount, comic, episodes[1..]);
    }
  }

  /** One task per page URL. */
  lemma {:induction false} DeriveTasksCount(mount: seq<string>, comics: NamingTree)
    ensures |DeriveTasks(mount, comics)| == TotalPages(comics)
    decreases |comics|
  {
    if comics != [] {
      ComicTasksCount(mount, comics[0].0, comics[0].1);
      DeriveTasksCount(mount, comics[1..]);
    }
  }

  // ---------------------------------------------------------------------------
  // Order: page `num` of episode `e` of comic `c` sits after all pages of the
  // comics before `c`, of the episodes of `c` before `e`, and of the pages before it.

  /** The element `k` places after the end of `a` in `a + b` is `b[k]`. */
  lemma ConcatAt<T>(a: seq<T>, b: seq<T>, k: nat)
    requires k < |b|
    ensures |a| + k < |a + b| && (a + b)[|a| + k] == b[k]
  {
  }

  /** A prefix of length `n > 0` is the first element followed by a prefix of the tail. */
  lemma PrefixSplit<T>(s: seq<T>, n: nat)
    requires 0 < n <= |s|
    ensures s[..n] == [s[0]] + s[1..][..n - 1]
    ensures ([s[0]] + s[1..][..n - 1])[0] == s[0] && ([s[0]] + s[1..][..n - 1])[1..] == s[1..][..n - 1]
  {
  }

  /** The concatenation of a sequence of blocks, as a nested comprehension produces it. */
  function Flatten<T>(blocks: seq<seq<T>>): seq<T> {
    if blocks == [] then [] else blocks[0] + Flatten(blocks[1..])
  }

  /** Element `k` of block `b` follows the elements of all blocks before `b`. */
  lemma {:induction false} FlattenAt<T>(blocks: seq<seq<T>>, b: nat, k: nat)
    requires b < |blocks| && k < |blocks[b]|
    ensures |Flatten(blocks[..b])| + k < |Flatten(blocks)|
    ensures Flatten(blocks)[|Flatten(blocks[..b])| + k] == blocks[b][k]
    decreases b
  {
    if b == 0 {
      assert blocks[..0] == [];
      assert (blocks[0] + Flatten(blocks[1..]))[k] == blocks[0][k];
    } else {
      FlattenAt(blocks[1..], b - 1, k);
      PrefixSplit(blocks, b);
      assert Flatten(blocks[..b]) == blocks[0] + Flatten(blocks[1..][..b - 1]);
      ConcatAt(blocks[0], Flatten(blocks[1..]), |Flatten(blocks[1..][..b - 1])| + k);
    }
  }

  /** The per-episode blocks of one comic's tasks. */
  function EpisodeBlocks(mount: seq<string>, comic: string, episodes: Episodes): seq<seq<Task>> {
    seq(|episodes|, i requires 0 <= i < |episodes| => EpisodeTasks(mount, comic, episodes[i].0, episodes[i].1))
  }

  /** The per-comic blocks of all tasks. */
  function ComicBlocks(mount: seq<string>, comics: NamingTree): seq<seq<Task>> {
    seq(|comics|, i requires 0 <= i < |comics| => ComicTasks(mount, comics[i].0, comics[i].1))
  }

  lemma {:induction false} ComicTasksFlatten(mount: seq<string>, comic: string, episodes: Episodes)
    ensures ComicTasks(mount, comic, episodes) == Flatten(EpisodeBlocks(mount, comic, episodes))
    decreases |episodes|
  {
    if episodes != [] {
      ComicTasksFlatten(mount, comic, episodes[1..]);
      assert EpisodeBlocks(mount, comic, episodes)[1..] == EpisodeBlocks(mount, comic, episodes[1..]);
    }
  }

  lemma {:induction false} DeriveTasksFlatten(mount: seq<string>, comics: NamingTree)
    ensures DeriveTasks(mount, comics) == Flatten(ComicBlocks(mount, comics))
    decreases |comics|
  {
    if comics != [] {
      DeriveTasksFlatten(mount, comics[1..]);
      assert ComicBlocks(mount, comics)[1..] == ComicBlocks(mount, comics[1..]);
    }
  }

  /** Page `num` of episode `e` is task `k` of its comic, `k` counting the pages of the episodes before `e`. */
  lemma ComicTasksAt(mount: seq<string>, comic: string, episodes: Episodes, e: nat, num: nat, k: nat)
    requires e < |episodes| && num < |episodes[e].1|
    requires k == EpisodePages(episodes[..e]) + num
    ensures k < |ComicTasks(mount, comic, episodes)|
    ensures ComicTasks(mount, comic, episodes)[k]
         == Task(PagePath(mount, comic, episodes[e].0, num, episodes[e].1[num]), episodes[e].1[num])
  {
    var blocks := EpisodeBlocks(mount, comic, episodes);
    ComicTasksFlatten(mount, comic, episodes);
    ComicTasksFlatten(mount, comic, episodes[..e]);
    ComicTasksCount(mount, comic, episodes[..e]);
    assert blocks[..e] == EpisodeBlocks(mount, comic, episodes[..e]);
    FlattenAt(blocks, e, num);
  }

  /** Task `k` of comic `c`, at position `i`, follows the tasks of all comics before it. */
  lemma {:induction false} DeriveTasksAtComic(mount: seq<string>, comics: NamingTree, c: nat, k: nat, i: nat)
    requires c < |comics| && k < |ComicTasks(mount, comics[c].0, comics[c].1)|
    requires i == TotalPages(comics[..c]) + k
    ensures i < |DeriveTasks(mount, comics)|
    ensures DeriveTasks(mount, comics)[i] == ComicTasks(mount, comics[c].0, comics[c].1)[k]
    decreases c
  {
    var first := ComicTasks(mount, comics[0].0, comics[0].1);
    var rest := DeriveTasks(mount, comics[1..]);
    var target := ComicTasks(mount, comics[c].0, comics[c].1);
    assert DeriveTasks(mount, comics) == first + rest;
    if c == 0 {
      assert TotalPages(comics[..0]) == 0 by { assert comics[..0] == []; }
      ConcatShift(DeriveTasks(mount, comics), [], first + rest, i, k, target[k]);
    } else {
      var j := TotalPages(comics[1..][..c - 1]) + k;
      DeriveTasksAtComic(mount, comics[1..], c - 1, k, j);
      assert comics[1..][c - 1] == comics[c];
      ComicTasksCount(mount, comics[0].0, comics[0].1);
      TotalPagesPrefix(comics, c);
      ConcatShift(DeriveTasks(mount, comics), first, rest, i, j, target[k]);
    }
  }

  /** The element at `j` of `rest` sits at `i = |first| + j` of `first + rest`. */
  lemma ConcatShift<T>(whole: seq<T>, first: seq<T>, rest: seq<T>, i: nat, j: nat, x: T)
    requires whole == first + rest && j < |rest| && rest[j] == x && i == |first| + j
    ensures i < |whole| && whole[i] == x
  {
  }

  /** The pages before comic `c` are those of the first comic and those before `c` in the rest. */
  lemma TotalPagesPrefix(comics: NamingTree, c: nat)
    requires 0 < c <= |comics|
    ensures TotalPages(comics[..c]) == EpisodePages(comics[0].1) + TotalPages(comics[1..][..c - 1])
  {
    PrefixSplit(comics, c);
  }

  /**
   * Tasks come comic by comic in mapping order, episode by episode, page by page:
   * the download task at position i = TotalPages(comics before c) + EpisodePages(episodes before e) + num
   * is page `num` of episode `e` of comic `c`, with the URL unchanged.
   */
  lemma DeriveTasksAt(mount: seq<string>, comics: NamingTree, c: nat, e: nat, num: nat, i: nat)
    requires c < |comics| && e < |comics[c].1| && num < |comics[c].1[e].1|
    requires i == TotalPages(comics[..c]) + EpisodePages(comics[c].1[..e]) + num
    ensures i < |DeriveTasks(mount, comics)|
    ensures DeriveTasks(mount, comics)[i]
         == Task(PagePath(mount, comics[c].0, comics[c].1[e].0, num, comics[c].1[e].1[num]), comics[c].1[e].1[num])
  {
    var k := EpisodePages(comics[c].1[..e]) + num;
    ComicTasksAt(mount, comics[c].0, comics[c].1, e, num, k);
    DeriveTasksAtComic(mount, comics, c, k, i);
  }

  // ---------------------------------------------------------------------------
  // Paths

  /** The name a page file gets is a single path-safe component. */
  lemma FileNameSafe(num: nat, url: string)
    ensures PathSafe(FileName(num, url))
  {
    OrdinalProperties(num);
    var o := Ordinal(num);
    var name := FileName(num, url);
    assert name[0] == o[0] && IsDigit(o[0]);
    forall i | 0 <= i < |name| ensures name[i] != '/' {
      if i < |o| {
        assert name[i] == o[i] && IsDigit(o[i]);
      } else {
        assert name[i] == SplitExt(url).1[i - |o|];
      }
    }
  }

  /** The leading run of decimal digits of a string. */
  function DigitPrefix(s: string): (p: string)
    ensures |p| <= |s| && p == s[..|p|] && AllDigits(p)
    ensures |p| < |s| ==> !IsDigit(s[|p|])
  {
    if s == [] || !IsDigit(s[0]) then [] else [s[0]] + DigitPrefix(s[1..])
  }

  lemma {:induction false} DigitPrefixConcat(d: string, rest: string)
    requires AllDigits(d)
    requires rest == [] || !IsDigit(rest[0])
    ensures DigitPrefix(d + rest) == d
    decreases |d|
  {
    if d == [] {
      assert d + rest == rest;
    } else {
      assert (d + rest)[1..] == d[1..] + rest;
      DigitPrefixConcat(d[1..], rest);
    }
  }

  /** The page index a file name encodes: its leading digits, read in base 10. */
  function PageIndex(name: string): nat {
    ParseDecimal(DigitPrefix(name))
  }

  /** The digit prefix of a page file name reads back as its index. */
  lemma PageIndexOfFileName(num: nat, url: string)
    ensures PageIndex(FileName(num, url)) == num
  {
    OrdinalProperties(num);
    DigitPrefixConcat(Ordinal(num), SplitExt(url).1);
  }

  /** Within one episode, distinct page indices give distinct file names. */
  lemma FileNamesDistinct(i: nat, j: nat, u: string, v: string)
    requires i != j
    ensures FileName(i, u) != FileName(j, v)
  {
    PageIndexOfFileName(i, u);
    PageIndexOfFileName(j, v);
  }

  /**
   * With path-safe names every `/` appends one component: the path is the mount
   * point, `comics`, the comic, the episode and the file name.
   */
  lemma PagePathOfSafeNames(mount: seq<string>, comic: string, episode: string, num: nat, url: string)
    requires PathSafe(comic) && PathSafe(episode)
    ensures PagePath(mount, comic, episode, num, url) == Render(mount + ["comics", comic, episode, FileName(num, url)])
  {
    FileNameSafe(num, url);
    StrJoinAllSafe(mount, ["comics", comic, episode, FileName(num, url)]);
  }

  /**
   * A comic named "/" + n escapes the mount point: pathlib starts the path over
   * at n, so the page is written to `/n/<episode>/<file>`.
   */
  lemma PagePathOfAbsoluteComic(mount: seq<string>, n: string, episode: string, num: nat, url: string)
    requires PathSafe(n) && PathSafe(episode)
    ensures PagePath(mount, "/" + n, episode, num, url) == Render([n, episode, FileName(num, url)])
  {
    var rest := [episode, FileName(num, url)];
    FileNameSafe(num, url);
    assert ["comics", "/" + n, episode, FileName(num, url)] == ["comics", "/" + n] + rest;
    StrJoinAllRestart(mount, "comics", n, rest);
    assert [n] + rest == [n, episode, FileName(num, url)];
  }

  /** A comic named "" or "." vanishes from the path: its episodes sit directly in `comics`. */
  lemma PagePathOfEmptyComic(mount: seq<string>, comic: string, episode: string, num: nat, url: string)
    requires comic == "" || comic == "."
    requires PathSafe(episode)
    ensures PagePath(mount, comic, episode, num, url) == Render(mount + ["comics", episode, FileName(num, url)])
  {
    var rest := [episode, FileName(num, url)];
    FileNameSafe(num, url);
    assert ["comics", comic, episode, FileName(num, url)] == ["comics", comic] + rest;
    StrJoinAllSkip(mount, "comics", comic, rest);
    assert mount + ["comics"] + rest == mount + ["comics", episode, FileName(num, url)];
  }

  /**
   * Every task path is `mount_point / "comics" / comic / episode / file_name`: its
   * components read back from the string are exactly those.
   */
  lemma PagePathComponents(mount: seq<string>, comic: string, episode: string, num: nat, url: string)
    requires ValidMount(mount) && PathSafe(comic) && PathSafe(episode)
    ensures Components(PagePath(mount, comic, episode, num, url))
         == mount + ["comics", comic, episode, FileName(num, url)]
  {
    FileNameSafe(num, url);
    PagePathOfSafeNames(mount, comic, episode, num, url);
    var parts := mount + ["comics", comic, episode, FileName(num, url)];
    assert AllPathSafe(parts) by {
      forall i | 0 <= i < |parts| ensures PathSafe(parts[i]) {
        if i < |mount| { assert parts[i] == mount[i]; }
      }
    }
    ComponentsRender(parts);
  }

  /** Component `i` of a rendered path, or "" past the end. */
  function ComponentAt(path: string, i: nat): string {
    var parts := Components(path);
    if i < |parts| then parts[i] else ""
  }

  // ---------------------------------------------------------------------------
  // Uniqueness of the derived paths

  predicate DistinctPaths(ts: seq<Task>) {
    forall i, j :: 0 <= i < j < |ts| ==> ts[i].path != ts[j].path
  }

  predicate PathSafeTree(comics: NamingTree) {
    forall c :: 0 <= c < |comics| ==> PathSafe(comics[c].0) && PathSafeEpisodes(comics[c].1)
  }

  predicate PathSafeEpisodes(episodes: Episodes) {
    forall e :: 0 <= e < |episodes| ==> PathSafe(episodes[e].0)
  }

  /** Keys of a Python dict (kept here as a list of pairs) are distinct. */
  predicate DistinctKeys<V>(pairs: seq<(string, V)>) {
    forall i, j :: 0 <= i < j < |pairs| ==> pairs[i].0 != pairs[j].0
  }

  predicate DictShaped(comics: NamingTree) {
    DistinctKeys(comics) && forall c :: 0 <= c < |comics| ==> DistinctKeys(comics[c].1)
  }

  function Keys<V>(pairs: seq<(string, V)>): set<string> {
    set i | 0 <= i < |pairs| :: pairs[i].0
  }

  /** The first key of a dict is not among the rest, which are a dict too. */
  lemma KeysCons<V>(pairs: seq<(string, V)>)
    requires pairs != [] && DistinctKeys(pairs)
    ensures DistinctKeys(pairs[1..])
    ensures Keys(pairs) == {pairs[0].0} + Keys(pairs[1..])
    ensures pairs[0].0 !in Keys(pairs[1..])
  {
    assert pairs[0].0 in Keys(pairs);
    forall n | n in Keys(pairs[1..]) ensures n in Keys(pairs) && n != pairs[0].0 {
      var i :| 0 <= i < |pairs[1..]| && pairs[1..][i].0 == n;
      assert pairs[i + 1].0 == n;
    }
    forall n | n in Keys(pairs) && n != pairs[0].0 ensures n in Keys(pairs[1..]) {
      var i :| 0 <= i < |pairs| && pairs[i].0 == n;
      assert pairs[1..][i - 1].0 == n;
    }
  }

  lemma ConcatDistinct(a: seq<Task>, b: seq<Task>)
    requires DistinctPaths(a) && DistinctPaths(b)
    requires forall i, j :: 0 <= i < |a| && 0 <= j < |b| ==> a[i].path != b[j].path
    ensures DistinctPaths(a + b)
  {
    forall i, j | 0 <= i < j < |a + b| ensures (a + b)[i].path != (a + b)[j].path {
      if j < |a| {
        assert (a + b)[i] == a[i] && (a + b)[j] == a[j];
      } else if i >= |a| {
        assert (a + b)[i] == b[i - |a|] && (a + b)[j] == b[j - |a|];
      } else {
        assert (a + b)[i] == a[i] && (a + b)[j] == b[j - |a|];
      }
    }
  }

  /** Two task lists that one path component tells apart join into a list of distinct paths. */
  lemma ConcatSeparated(a: seq<Task>, b: seq<Task>, at: nat, x: string, ys: set<string>)
    requires DistinctPaths(a) && DistinctPaths(b)
    requires forall k :: 0 <= k < |a| ==> ComponentAt(a[k].path, at) == x
    requires forall k :: 0 <= k < |b| ==> ComponentAt(b[k].path, at) in ys
    requires x !in ys
    ensures DistinctPaths(a + b)
    ensures forall k :: 0 <= k < |a + b| ==> ComponentAt((a + b)[k].path, at) in {x} + ys
  {
    forall i, j | 0 <= i < |a| && 0 <= j < |b| ensures a[i].path != b[j].path {
      assert ComponentAt(a[i].path, at) != ComponentAt(b[j].path, at);
    }
    ConcatDistinct(a, b);
    forall k | 0 <= k < |a + b| ensures ComponentAt((a + b)[k].path, at) in {x} + ys {
      if k < |a| { assert (a + b)[k] == a[k]; } else { assert (a + b)[k] == b[k - |a|]; }
    }
  }

  lemma ConcatSame(a: seq<Task>, b: seq<Task>, at: nat, x: string)
    requires forall k :: 0 <= k < |a| ==> ComponentAt(a[k].path, at) == x
    requires forall k :: 0 <= k < |b| ==> ComponentAt(b[k].path, at) == x
    ensures forall k :: 0 <= k < |a + b| ==> ComponentAt((a + b)[k].path, at) == x
  {
    forall k | 0 <= k < |a + b| ensures ComponentAt((a + b)[k].path, at) == x {
      if k < |a| { assert (a + b)[k] == a[k]; } else { assert (a + b)[k] == b[k - |a|]; }
    }
  }

  lemma EpisodeTasksShape(mount: seq<string>, comic: string, episode: string, pages: seq<string>)
    requires ValidMount(mount) && PathSafe(comic) && PathSafe(episode)
    ensures DistinctPaths(EpisodeTasks(mount, comic, episode, pages))
    ensures forall k :: 0 <= k < |pages| ==>
      ComponentAt(EpisodeTasks(mount, comic, episode, pages)[k].path, |mount| + 1) == comic &&
      ComponentAt(EpisodeTasks(mount, comic, episode, pages)[k].path, |mount| + 2) == episode
  {
    var ts := EpisodeTasks(mount, comic, episode, pages);
    forall k | 0 <= k < |pages|
      ensures ComponentAt(ts[k].path, |mount| + 1) == comic && ComponentAt(ts[k].path, |mount| + 2) == episode
    {
      PagePathComponents(mount, comic, episode, k, pages[k]);
    }
    forall i, j | 0 <= i < j < |ts| ensures ts[i].path != ts[j].path {
      PagePathComponents(mount, comic, episode, i, pages[i]);
      PagePathComponents(mount, comic, episode, j, pages[j]);
      FileNamesDistinct(i, j, pages[i], pages[j]);
      var pi := mount + ["comics", comic, episode, FileName(i, pages[i])];
      var pj := mount + ["comics", comic, episode, FileName(j, pages[j])];
      assert pi[|mount| + 3] != pj[|mount| + 3];
    }
  }

  lemma {:induction false} ComicTasksShape(mount: seq<string>, comic: string, episodes: Episodes)
    requires ValidMount(mount) && PathSafe(comic) && PathSafeEpisodes(episodes) && DistinctKeys(episodes)
    ensures DistinctPaths(ComicTasks(mount, comic, episodes))
    ensures forall k :: 0 <= k < |ComicTasks(mount, comic, episodes)| ==>
      ComponentAt(ComicTasks(mount, comic, episodes)[k].path, |mount| + 1) == comic &&
      ComponentAt(ComicTasks(mount, comic, episodes)[k].path, |mount| + 2) in Keys(episodes)
    decreases |episodes|
  {
    if episodes != [] {
      var head := EpisodeTasks(mount, comic, episodes[0].0, episodes[0].1);
      var rest := ComicTasks(mount, comic, episodes[1..]);
      EpisodeTasksShape(mount, comic, episodes[0].0, episodes[0].1);
      KeysCons(episodes);
      ComicTasksShape(mount, comic, episodes[1..]);
      ConcatSeparated(head, rest, |mount| + 2, episodes[0].0, Keys(episodes[1..]));
      ConcatSame(head, rest, |mount| + 1, comic);
    }
  }

  /**
   * For a request that is a mapping (distinct keys) of path-safe names, all
   * derived task paths are distinct: no two pages are written to the same file.
   */
  lemma {:induction false} DeriveTasksDistinct(mount: seq<string>, comics: NamingTree)
    requires ValidMount(mount) && PathSafeTree(comics) && DictShaped(comics)
    ensures DistinctPaths(DeriveTasks(mount, comics))
    ensures forall k :: 0 <= k < |DeriveTasks(mount, comics)| ==>
      ComponentAt(DeriveTasks(mount, comics)[k].path, |mount| + 1) in Keys(comics)
    decreases |comics|
  {
    if comics != [] {
      var head := ComicTasks(mount, comics[0].0, comics[0].1);
      var rest := DeriveTasks(mount, comics[1..]);
      ComicTasksShape(mount, comics[0].0, comics[0].1);
      KeysCons(comics);
      assert PathSafeTree(comics[1..]) && DictShaped(comics[1..]) by {
        forall c | 0 <= c < |comics[1..]| ensures comics[1..][c] == comics[c + 1] { }
      }
      DeriveTasksDistinct(mount, comics[1..]);
      ConcatSeparated(head, rest, |mount| + 1, comics[0].0, Keys(comics[1..]));
    }
  }

  // ---------------------------------------------------------------------------
  // The fixture of tests/test_integration.py

  /** The extension of the fixture's page URLs. */
  lemma FixtureExtension(url: string)
    requires url == "https://robohash.org/1.jpg" || url == "https://robohash.org/2.jpg"
    ensures SplitExt(url).1 == ".jpg"
  {
    assert url[20] == '/' && url[22] == '.' && url[16] == '.';
    assert RFind(url, '/') == 20;
    assert RFind(url, '.') == 22;
    assert url[21] != '.';
    assert url[22..] == ".jpg";
  }

  /** The fixture's two file names. */
  lemma FixtureFileNames()
    ensures FileName(0, "https://robohash.org/1.jpg") == "000.jpg"
    ensures FileName(1, "https://robohash.org/2.jpg") == "001.jpg"
  {
    FixtureExtension("https://robohash.org/1.jpg");
    FixtureExtension("https://robohash.org/2.jpg");
    assert Decimal(0) == "0" && Decimal(1) == "1";
    assert Zeros(2) == "00";
  }

  /**
   * `{"test-comic": {"ep1": [".../1.jpg", ".../2.jpg"]}}` yields `000.jpg` then
   * `001.jpg` under `comics/test-comic/ep1`, with the URLs unchanged.
   */
  lemma FixtureTasks(mount: seq<string>)
    ensures DeriveTasks(mount, [("test-comic", [("ep1", ["https://robohash.org/1.jpg", "https://robohash.org/2.jpg"])])])
         == [ Task(Render(mount + ["comics", "test-comic", "ep1", "000.jpg"]), "https://robohash.org/1.jpg"),
              Task(Render(mount + ["comics", "test-comic", "ep1", "001.jpg"]), "https://robohash.org/2.jpg") ]
  {
    FixtureFileNames();
    TwoPageTasks(mount, "test-comic", "ep1", "https://robohash.org/1.jpg", "https://robohash.org/2.jpg");
  }

  /** A request of one comic with one episode of two pages yields the tasks of pages 0 and 1, in order. */
  lemma TwoPageTasks(mount: seq<string>, comic: string, episode: string, u1: string, u2: string)
    requires PathSafe(comic) && PathSafe(episode)
    ensures DeriveTasks(mount, [(comic, [(episode, [u1, u2])])])
         == [ Task(Render(mount + ["comics", comic, episode, FileName(0, u1)]), u1),
              Task(Render(mount + ["comics", comic, episode, FileName(1, u2)]), u2) ]
  {
    PagePathOfSafeNames(mount, comic, episode, 0, u1);
    PagePathOfSafeNames(mount, comic, episode, 1, u2);
    var ts := EpisodeTasks(mount, comic, episode, [u1, u2]);
    assert ts[0] == Task(PagePath(mount, comic, episode, 0, u1), u1);
    assert ts[1] == Task(PagePath(mount, comic, episode, 1, u2), u2);
    var eps: Episodes := [(episode, [u1, u2])];
    assert ComicTasks(mount, comic, eps[1..]) == [];
    assert ComicTasks(mount, comic, eps) == ts;
    var comics: NamingTree := [(comic, eps)];
    assert DeriveTasks(mount, comics[1..]) == [];
  }

  // ---------------------------------------------------------------------------
  // Transport of a task to the background worker

  /** `dataclasses.asdict(task)`, the message the background downloader enqueues. */
  function AsDict(t: Task): map<string, string> {
    map["path" := t.path, "url" := t.url]
  }

  /** `Task(**d)` in the worker: exactly the keys `path` and `url`, otherwise a TypeError. */
  function FromDict(d: map<string, string>): (r: Option<Task>)
    ensures r.Some? <==> d.Keys == {"path", "url"}
  {
    if d.Keys == {"path", "url"} then Some(Task(d["path"], d["url"])) else None
  }

  /** A task survives the queue unchanged, and only messages built from a task are accepted. */
  lemma TaskRoundTrip(t: Task, d: map<string, string>)
    ensures FromDict(AsDict(t)) == Some(t)
    ensures FromDict(d).Some? ==> AsDict(FromDict(d).value) == d
  {
    assert AsDict(t).Keys == {"path", "url"};
  }

  // ---------------------------------------------------------------------------
  // The handler

  /**
   * The Flask application's `add` endpoint with its module-level downloader.
   * `dispatched` is everything handed to `downloader.download` so far, in order.
   */
  class StorageServer {
    const mount: seq<string>
    var dispatched: seq<Task>

    constructor (mount: seq<string>)
      requires ValidMount(mount)
      ensures this.mount == mount && dispatched == []
    {
      this.mount := mount;
      dispatched := [];
    }

    /** `downloader.download(task)`: the download task is handed over; fetching it is not modelled. */
    method Download(task: Task)
      modifies this
      ensures dispatched == old(dispatched) + [task]
    {
      dispatched := dispatched + [task];
    }

    /**
     * `add()`: derive the tasks, hand each to the downloader once, in derivation
     * order, and answer `{"ok": True}` whatever happens to the downloads.
     */
    method Add(comics: NamingTree) returns (ok: bool)
      modifies this
      ensures dispatched == old(dispatched) + DeriveTasks(mount, comics)
      ensures ok
    {
      var tasks := DeriveTasks(mount, comics);
      for i := 0 to |tasks|
        invariant dispatched == old(dispatched) + tasks[..i]
      {
        Download(tasks[i]);
        assert tasks[..i + 1] == tasks[..i] + [tasks[i]];
      }
      assert tasks[..|tasks|] == tasks;
      ok := true;
    }
  }
}
