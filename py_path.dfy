/**
 * The pieces of the Python standard library that the storage server's `add`
 * handler relies on to name a page file: `str(int)`, `str.zfill`,
 * `os.path.splitext` (POSIX flavour) and the rendering of an absolute
 * `pathlib.Path` built with `/`.
 */
module PyPath {

  // ---------------------------------------------------------------------------
  // str(n) for a non-negative int, and reading decimal digits back

  predicate IsDigit(c: char) {
    '0' <= c <= '9'
  }

  predicate AllDigits(s: string) {
    forall i :: 0 <= i < |s| ==> IsDigit(s[i])
  }

  function DigitChar(d: nat): (c: char)
    requires d < 10
    ensures IsDigit(c)
  {
    ('0' as int + d) as char
  }

  /** `str(n)`: decimal digits, no leading zero except for zero itself. */
  function Decimal(n: nat): (s: string)
    ensures |s| >= 1 && AllDigits(s)
    ensures s[0] == '0' <==> n == 0
    decreases n
  {
    if n < 10 then [DigitChar(n)] else Decimal(n / 10) + [DigitChar(n % 10)]
  }

  /** The value of a string of decimal digits (most significant first); "" reads as 0. */
  function ParseDecimal(s: string): nat
    requires AllDigits(s)
  {
    if s == [] then 0 else ParseDecimal(s[..|s| - 1]) * 10 + (s[|s| - 1] as int - '0' as int)
  }

  lemma {:induction false} ParseDecimalOfDecimal(n: nat)
    ensures ParseDecimal(Decimal(n)) == n
    decreases n
  {
    if n >= 10 {
      ParseDecimalOfDecimal(n / 10);
      var s := Decimal(n);
      assert s[..|s| - 1] == Decimal(n / 10);
    }
  }

  function Pow10(k: nat): (p: nat)
    ensures p >= 1
  {
    if k == 0 then 1 else 10 * Pow10(k - 1)
  }

  /** `str(n)` has at most k + 1 digits exactly when n is below 10^(k+1). */
  lemma {:induction false} DecimalWidth(n: nat, k: nat)
    ensures |Decimal(n)| <= k + 1 <==> n < Pow10(k + 1)
    decreases k
  {
    if k > 0 && n >= 10 {
      DecimalWidth(n / 10, k - 1);
    }
  }

  /** `str(n)` has at most three digits exactly when n is below 1000. */
  lemma DecimalLength(n: nat)
    ensures |Decimal(n)| <= 3 <==> n < 1000
  {
    DecimalWidth(n, 2);
    assert Pow10(3) == 1000;
  }

  function Zeros(k: nat): (z: string)
    ensures |z| == k && AllDigits(z)
    ensures forall i :: 0 <= i < k ==> z[i] == '0'
  {
    seq(k, _ => '0')
  }

  /** Leading zeros do not change the value read back. */
  lemma {:induction false} ParseDecimalLeadingZeros(k: nat, s: string)
    requires AllDigits(s)
    ensures ParseDecimal(Zeros(k) + s) == ParseDecimal(s)
    decreases |s|
  {
    if s == [] {
      ZerosParse(k);
      assert Zeros(k) + s == Zeros(k);
    } else {
      var t := Zeros(k) + s;
      assert t[..|t| - 1] == Zeros(k) + s[..|s| - 1];
      ParseDecimalLeadingZeros(k, s[..|s| - 1]);
    }
  }

  lemma {:induction false} ZerosParse(k: nat)
    ensures ParseDecimal(Zeros(k)) == 0
  {
    if k > 0 {
      assert Zeros(k)[..k - 1] == Zeros(k - 1);
      ZerosParse(k - 1);
    }
  }

  // ---------------------------------------------------------------------------
  // str.zfill(width)

  /**
   * `s.zfill(width)`: pad on the left with '0' up to `width` characters, keeping
   * a leading sign in front of the padding; a string already `width` long or
   * longer comes back unchanged (no truncation).
   */
  function ZFill(s: string, width: nat): (r: string)
    ensures |r| == if |s| >= width then |s| else width
    ensures |s| >= width ==> r == s
    ensures |s| < width && (s == [] || (s[0] != '+' && s[0] != '-')) ==> r == Zeros(width - |s|) + s
    ensures |s| < width && s != [] && (s[0] == '+' || s[0] == '-') ==> r == [s[0]] + Zeros(width - |s|) + s[1..]
  {
    if |s| >= width then s
    else if |s| > 0 && (s[0] == '+' || s[0] == '-') then [s[0]] + Zeros(width - |s|) + s[1..]
    else Zeros(width - |s|) + s
  }

  /** `str(n).zfill(3)`, the page ordinal of the storage layout. */
  function Ordinal(n: nat): string {
    ZFill(Decimal(n), 3)
  }

  /**
   * The ordinal has at least three digits, is zero-padded to exactly three below
   * 1000, is plain decimal (no leading zero) from 1000 up, and reads back as `n`.
   */
  lemma OrdinalProperties(n: nat)
    ensures |Ordinal(n)| >= 3 && AllDigits(Ordinal(n))
    ensures n < 1000 ==> |Ordinal(n)| == 3 && Ordinal(n) == Zeros(3 - |Decimal(n)|) + Decimal(n)
    ensures n >= 1000 ==> Ordinal(n) == Decimal(n) && Ordinal(n)[0] != '0'
    ensures ParseDecimal(Ordinal(n)) == n
  {
    var d := Decimal(n);
    DecimalLength(n);
    ParseDecimalOfDecimal(n);
    if |d| < 3 {
      ParseDecimalLeadingZeros(3 - |d|, d);
    }
  }

  // ---------------------------------------------------------------------------
  // os.path.splitext (posixpath)

  /** `s.rfind(c)`: the last index holding `c`, or -1. */
  function RFind(s: string, c: char): (i: int)
    ensures -1 <= i < |s|
    ensures i >= 0 ==> s[i] == c
    ensures forall k :: i < k < |s| ==> s[k] != c
  {
    if s == [] then -1
    else if s[|s| - 1] == c then |s| - 1
    else RFind(s[..|s| - 1], c)
  }

  /** Some character of `p[lo..hi]` is not a dot. */
  predicate HasNonDot(p: string, lo: nat, hi: nat)
    requires lo <= hi <= |p|
  {
    exists k :: lo <= k < hi && p[k] != '.'
  }

  /**
   * `os.path.splitext(p)`: the extension starts at the last '.', provided that dot
   * comes after the last '/' and the part of the last component before it is not
   * made only of dots (leading dots of a name do not start an extension).
   * Otherwise the extension is empty.
   */
  function SplitExt(p: string): (r: (string, string))
    ensures r.0 + r.1 == p
    ensures r.1 == [] || (r.1[0] == '.' && '/' !in r.1 && '.' !in r.1[1..])
    ensures r.1 != [] <==>
      (RFind(p, '.') > RFind(p, '/') && HasNonDot(p, RFind(p, '/') + 1, RFind(p, '.')))
  {
    var sep := RFind(p, '/');
    var dot := RFind(p, '.');
    if dot > sep && HasNonDot(p, sep + 1, dot) then
      assert p[..dot] + p[dot..] == p;
      (p[..dot], p[dot..])
    else
      (p, "")
  }

  // ---------------------------------------------------------------------------
  // Absolute pathlib paths

  /**
   * A name that pathlib keeps as exactly one component of a path and that does
   * not step out of its directory: non-empty, no '/', and neither "." nor "..".
   */
  predicate PathSafe(name: string) {
    name != "" && '/' !in name && name != "." && name != ".."
  }

  predicate AllPathSafe(names: seq<string>) {
    forall i :: 0 <= i < |names| ==> PathSafe(names[i])
  }

  /** The components joined with '/'. */
  function Join(parts: seq<string>): string {
    if parts == [] then ""
    else if |parts| == 1 then parts[0]
    else parts[0] + "/" + Join(parts[1..])
  }

  /**
   * `str(Path("/") / p1 / ... / pn)` for path-safe components: a leading '/' and
   * the components joined with '/'.
   */
  function Render(parts: seq<string>): (s: string)
    ensures |s| >= 1 && s[0] == '/'
  {
    "/" + Join(parts)
  }

  /** `s.find(c)`: the first index holding `c`, or -1. */
  function Find(s: string, c: char): (i: int)
    ensures -1 <= i < |s|
    ensures i >= 0 ==> s[i] == c
    ensures forall k :: 0 <= k < |s| && (i < 0 || k < i) ==> s[k] != c
  {
    if s == [] then -1
    else if s[0] == c then 0
    else var j := Find(s[1..], c); if j < 0 then -1 else j + 1
  }

  /** `s.split("/")`: the pieces between the slashes. */
  function Split(s: string): (parts: seq<string>)
    ensures |parts| >= 1
    decreases |s|
  {
    var i := Find(s, '/');
    if i < 0 then [s] else [s[..i]] + Split(s[i + 1..])
  }

  /** Splitting undoes joining when no component holds a '/'. */
  lemma {:induction false} SplitJoin(parts: seq<string>)
    requires |parts| >= 1
    requires forall i :: 0 <= i < |parts| ==> '/' !in parts[i]
    ensures Split(Join(parts)) == parts
    decreases |parts|
  {
    if |parts| == 1 {
      assert Find(parts[0], '/') < 0;
    } else {
      var x := parts[0];
      var s := Join(parts);
      assert s == x + "/" + Join(parts[1..]);
      assert s[|x|] == '/';
      assert forall k :: 0 <= k < |x| ==> s[k] == x[k];
      assert Find(s, '/') == |x|;
      assert s[..|x|] == x;
      assert s[|x| + 1..] == Join(parts[1..]);
      SplitJoin(parts[1..]);
      assert parts == [x] + parts[1..];
    }
  }

  /** The components of a rendered absolute path, read back from the string. */
  function Components(path: string): seq<string> {
    if path == [] then [] else Split(path[1..])
  }

  lemma ComponentsRender(parts: seq<string>)
    requires |parts| >= 1 && AllPathSafe(parts)
    ensures Components(Render(parts)) == parts
  {
    assert Render(parts)[1..] == Join(parts);
    SplitJoin(parts);
  }

  /** Two non-empty lists of path-safe components render to the same string only if they are equal. */
  lemma RenderInjective(a: seq<string>, b: seq<string>)
    requires |a| >= 1 && |b| >= 1 && AllPathSafe(a) && AllPathSafe(b)
    ensures Render(a) == Render(b) <==> a == b
  {
    if Render(a) == Render(b) {
      ComponentsRender(a);
      ComponentsRender(b);
    }
  }

  // ---------------------------------------------------------------------------
  // Joining with `/` (pathlib's POSIX flavour)

  /**
   * A POSIX pathlib path as pathlib keeps it: its root ("" for a relative
   * path; "/", or "//" for exactly two leading slashes) and its parts.
   */
  datatype PurePath = PurePath(root: string, parts: seq<string>)

  /** `s.lstrip("/")`. */
  function LStripSlash(s: string): string
  {
    if s != [] && s[0] == '/' then LStripSlash(s[1..]) else s
  }

  /** `splitroot` of the POSIX flavour: the root a segment starts with, and the rest of it. */
  function SplitRoot(part: string): (string, string)
  {
    if part != [] && part[0] == '/' then
      var rel := LStripSlash(part);
      (if |part| - |rel| == 2 then "//" else "/", rel)
    else ("", part)
  }

  /** The pieces pathlib keeps: "" (from repeated or trailing slashes) and "." are dropped. */
  function DropEmpty(pieces: seq<string>): seq<string>
  {
    if pieces == [] then []
    else (if pieces[0] == "" || pieces[0] == "." then [] else [pieces[0]]) + DropEmpty(pieces[1..])
  }

  /** The parts a relative segment contributes. */
  function RelParts(rel: string): seq<string> {
    DropEmpty(Split(rel))
  }

  /** `p / seg`: a segment with a root starts the path over; any other appends its parts. */
  function JoinPath(p: PurePath, seg: string): PurePath {
    var (root, rel) := SplitRoot(seg);
    if root != "" then PurePath(root, RelParts(rel)) else PurePath(p.root, p.parts + RelParts(rel))
  }

  /** `p / segs[0] / ... / segs[n-1]`, left to right. */
  function JoinAll(p: PurePath, segs: seq<string>): PurePath
    decreases |segs|
  {
    if segs == [] then p else JoinAll(JoinPath(p, segs[0]), segs[1..])
  }

  /** `str(p)`: the root, then the parts joined with '/'; an empty relative path is ".". */
  function Str(p: PurePath): string {
    if p.root == "" && p.parts == [] then "." else p.root + Join(p.parts)
  }

  /** A path-safe segment is appended as exactly one part. */
  lemma JoinSafe(p: PurePath, seg: string)
    requires PathSafe(seg)
    ensures JoinPath(p, seg) == PurePath(p.root, p.parts + [seg])
  {
    assert seg[0] != '/' by { assert seg[0] in seg; }
    RelPartsSafe(seg);
  }

  /** A path-safe segment is one part. */
  lemma RelPartsSafe(seg: string)
    requires PathSafe(seg)
    ensures RelParts(seg) == [seg]
  {
    assert Find(seg, '/') < 0;
    assert RelParts(seg) == DropEmpty([seg]) == [seg];
  }

  /** Path-safe segments are appended one part each. */
  lemma {:induction false} JoinAllSafe(p: PurePath, segs: seq<string>)
    requires AllPathSafe(segs)
    ensures JoinAll(p, segs) == PurePath(p.root, p.parts + segs)
    decreases |segs|
  {
    if segs != [] {
      JoinSafe(p, segs[0]);
      JoinAllSafe(JoinPath(p, segs[0]), segs[1..]);
      assert p.parts + [segs[0]] + segs[1..] == p.parts + segs;
    }
  }

  /** A segment "/" + n, for a path-safe n, throws away everything before it. */
  lemma JoinAbsolute(p: PurePath, n: string)
    requires PathSafe(n)
    ensures JoinPath(p, "/" + n) == PurePath("/", [n])
  {
    var seg := "/" + n;
    assert n[0] != '/' by { assert n[0] in n; }
    assert seg[1..] == n;
    assert LStripSlash(n) == n;
    assert LStripSlash(seg) == n;
    assert SplitRoot(seg) == ("/", n);
    RelPartsSafe(n);
  }

  /** The segments "" and "." add nothing. */
  lemma JoinEmpty(p: PurePath, seg: string)
    requires seg == "" || seg == "."
    ensures JoinPath(p, seg) == p
  {
    assert Find(seg, '/') < 0;
    assert Split(seg) == [seg];
    assert p.parts + [] == p.parts;
  }

  /** Below an absolute path, path-safe segments render as one component each. */
  lemma StrJoinAllSafe(parts: seq<string>, segs: seq<string>)
    requires AllPathSafe(segs)
    ensures Str(JoinAll(PurePath("/", parts), segs)) == Render(parts + segs)
  {
    JoinAllSafe(PurePath("/", parts), segs);
  }

  /**
   * After a first path-safe segment, a segment "/" + n starts the path over:
   * only n and the path-safe segments after it remain.
   */
  lemma StrJoinAllRestart(parts: seq<string>, first: string, n: string, rest: seq<string>)
    requires PathSafe(first) && PathSafe(n) && AllPathSafe(rest)
    ensures Str(JoinAll(PurePath("/", parts), [first, "/" + n] + rest)) == Render([n] + rest)
  {
    var segs := [first, "/" + n] + rest;
    var p := JoinPath(PurePath("/", parts), first);
    assert segs[0] == first && segs[1..] == ["/" + n] + rest;
    assert segs[1..][0] == "/" + n && segs[1..][1..] == rest;
    JoinAbsolute(p, n);
    JoinAllSafe(PurePath("/", [n]), rest);
  }

  /** After a first path-safe segment, a segment "" or "." leaves no trace. */
  lemma StrJoinAllSkip(parts: seq<string>, first: string, seg: string, rest: seq<string>)
    requires PathSafe(first) && (seg == "" || seg == ".") && AllPathSafe(rest)
    ensures Str(JoinAll(PurePath("/", parts), [first, seg] + rest)) == Render(parts + [first] + rest)
  {
    var segs := [first, seg] + rest;
    var p := JoinPath(PurePath("/", parts), first);
    assert segs[0] == first && segs[1..] == [seg] + rest;
    assert segs[1..][0] == seg && segs[1..][1..] == rest;
    JoinSafe(PurePath("/", parts), first);
    JoinEmpty(p, seg);
    JoinAllSafe(p, rest);
  }

  /** An absolute path of path-safe parts renders as `Render` describes. */
  lemma StrRoot(parts: seq<string>)
    ensures Str(PurePath("/", parts)) == Render(parts)
  {
  }
}
