/** Byte ranges: overwriting part of a sequence, and the copy loop that does it. */
module Bytes {
  import opened Base

  /** A little-endian 32-bit word. */
  function Word(s: seq<byte>, i: nat): nat
    requires i + 4 <= |s|
  {
    s[i] as nat + 0x100 * (s[i + 1] as nat) + 0x1_0000 * (s[i + 2] as nat) + 0x100_0000 * (s[i + 3] as nat)
  }

  /** A little-endian 16-bit word. */
  function Half(s: seq<byte>, i: nat): nat
    requires i + 2 <= |s|
  {
    s[i] as nat + 0x100 * (s[i + 1] as nat)
  }

  /** s with the elements from a on overwritten by data. */
  function Patch<T>(s: seq<T>, a: nat, data: seq<T>): (r: seq<T>)
    requires a + |data| <= |s|
    ensures |r| == |s| && r[a..a + |data|] == data
    ensures r[..a] == s[..a] && r[a + |data|..] == s[a + |data|..]
  {
    s[..a] + data + s[a + |data|..]
  }

  /** Two adjoining patches are one. */
  lemma PatchJoin<T>(s: seq<T>, a: nat, x: seq<T>, y: seq<T>)
    requires a + |x| + |y| <= |s|
    ensures Patch(Patch(s, a, x), a + |x|, y) == Patch(s, a, x + y)
  {
  }

  lemma PatchAt<T>(s: seq<T>, a: nat, data: seq<T>, j: nat)
    requires a + |data| <= |s| && j < |s|
    ensures Patch(s, a, data)[j] == if a <= j < a + |data| then data[j - a] else s[j]
  {
  }

  /** Rewriting a whole block around a change is the change. */
  lemma PatchWithin<T>(s: seq<T>, a: nat, n: nat, b: nat, data: seq<T>)
    requires a + n <= |s| && b + |data| <= n
    ensures Patch(s, a, Patch(s[a..a + n], b, data)) == Patch(s, a + b, data)
  {
    var block := Patch(s[a..a + n], b, data);
    var x, y := Patch(s, a, block), Patch(s, a + b, data);
    hide Patch;
    forall j | 0 <= j < |s| ensures x[j] == y[j] {
      PatchAt(s, a, block, j);
      PatchAt(s, a + b, data, j);
      if a <= j < a + n {
        PatchAt(s[a..a + n], b, data, j - a);
      }
    }
  }

  lemma PatchOne<T>(s: seq<T>, a: nat, x: T)
    requires a < |s|
    ensures Patch(s, a, [x]) == s[a := x]
  {
  }

  lemma PatchNothing<T>(s: seq<T>, a: nat)
    requires a <= |s|
    ensures Patch(s, a, []) == s
  {
  }

  /** The n elements from place a on. */
  function Slice<T>(s: seq<T>, a: nat, n: nat): (r: seq<T>)
    requires a + n <= |s|
    ensures |r| == n
  {
    s[a..a + n]
  }

  lemma SliceAt<T>(s: seq<T>, a: nat, n: nat, j: nat)
    requires a + n <= |s| && j < n
    ensures Slice(s, a, n)[j] == s[a + j]
  {
  }

  /** Patching with two adjoining slices is patching with the slice they make up. */
  lemma PatchSlices<T>(s: seq<T>, at: nat, t: seq<T>, a: nat, n: nat, k: nat)
    requires at + n + k <= |s| && a + n + k <= |t|
    ensures Patch(Patch(s, at, Slice(t, a, n)), at + n, Slice(t, a + n, k)) == Patch(s, at, Slice(t, a, n + k))
  {
    PatchJoin(s, at, Slice(t, a, n), Slice(t, a + n, k));
    hide Patch;
    assert Slice(t, a, n) + Slice(t, a + n, k) == Slice(t, a, n + k);
  }

  lemma PatchNoSlice<T>(s: seq<T>, at: nat, t: seq<T>, a: nat)
    requires at <= |s| && a <= |t|
    ensures Patch(s, at, Slice(t, a, 0)) == s
  {
  }

  /** A slice of a slice that fills a buffer. */
  lemma SliceInSlice<T>(s: seq<T>, t: seq<T>, a: nat, n: nat, b: nat, k: nat)
    requires |s| == n && a + n <= |t| && b + k <= n
    ensures Slice(Patch(s, 0, Slice(t, a, n)), b, k) == Slice(t, a + b, k)
  {
    PatchAll(s, Slice(t, a, n));
    SliceSlice(t, a, n, b, k);
    hide Patch;
    assert Slice(t, a + b, k) == t[a + b..a + b + k];
  }

  lemma PatchAll<T>(s: seq<T>, data: seq<T>)
    requires |s| == |data|
    ensures Patch(s, 0, data) == data
  {
  }

  /** Copies n elements, one at a time from the front. */
  method Memcpy<T>(dest: array<T>, d: nat, src: array<T>, s: nat, n: nat)
    requires d + n <= dest.Length && s + n <= src.Length && dest != src
    modifies dest
    ensures dest[..] == Patch(old(dest[..]), d, src[s..s + n])
  {
    hide Patch;
    var i := 0;
    PatchNothing(dest[..], d);
    while i < n
      invariant 0 <= i <= n
      invariant dest[..] == Patch(old(dest[..]), d, src[s..s + i])
    {
      PatchJoin(old(dest[..]), d, src[s..s + i], [src[s + i]]);
      assert src[s..s + i] + [src[s + i]] == src[s..s + i + 1];
      PatchOne(dest[..], d + i, src[s + i]);
      dest[d + i] := src[s + i];
      i := i + 1;
    }
  }

  function Repeat<T>(value: T, n: nat): (r: seq<T>)
    ensures |r| == n && forall i :: 0 <= i < n ==> r[i] == value
  {
    if n == 0 then [] else Repeat(value, n - 1) + [value]
  }

  /** Sets n elements, one at a time from the front. */
  method Memset<T>(dest: array<T>, d: nat, value: T, n: nat)
    requires d + n <= dest.Length
    modifies dest
    ensures dest[..] == Patch(old(dest[..]), d, Repeat(value, n))
  {
    hide Patch;
    var i := 0;
    PatchNothing(dest[..], d);
    while i < n
      invariant 0 <= i <= n
      invariant dest[..] == Patch(old(dest[..]), d, Repeat(value, i))
    {
      PatchJoin(old(dest[..]), d, Repeat(value, i), [value]);
      PatchOne(dest[..], d + i, value);
      dest[d + i] := value;
      i := i + 1;
    }
  }

  lemma SliceSlice<T>(s: seq<T>, a: nat, n: nat, b: nat, k: nat)
    requires a + n <= |s| && b + k <= n
    ensures s[a..a + n][b..b + k] == s[a + b..a + b + k]
  {
    var u, v, w := s[a..a + n], s[a..a + n][b..b + k], s[a + b..a + b + k];
    forall i | 0 <= i < k ensures v[i] == w[i] {
      assert v[i] == u[b + i];
      assert u[b + i] == s[a + (b + i)];
    }
  }

  /** A patch that begins where a known part ends extends it. */
  lemma PatchAppend<T>(s: seq<T>, a: nat, b: nat, data: seq<T>)
    requires a <= b && b + |data| <= |s|
    ensures Patch(s, b, data)[a..b + |data|] == s[a..b] + data
  {
  }

  /** A patch leaves what lies before or behind it. */
  lemma PatchApart<T>(s: seq<T>, at: nat, data: seq<T>, a: nat, b: nat)
    requires a <= b <= |s| && at + |data| <= |s| && (b <= at || at + |data| <= a)
    ensures Patch(s, at, data)[a..b] == s[a..b]
  {
  }

  // ----- little-endian words -----

  /** The four bytes of a word, lowest first. */
  function LittleEndian(v: u32): (r: seq<byte>)
    ensures |r| == 4
  {
    [(v % 0x100) as byte, (v / 0x100 % 0x100) as byte, (v / 0x1_0000 % 0x100) as byte, (v / 0x100_0000) as byte]
  }

  lemma Halved(v: nat, lo: nat, hi: nat)
    requires v == lo + 0x1_0000 * hi && lo < 0x1_0000
    ensures v % 0x1_0000 == lo && v / 0x1_0000 == hi
  {
  }

  lemma Paired(v: nat)
    ensures v == v % 0x100 + 0x100 * (v / 0x100)
  {
  }

  lemma BytesOfWord(v: nat)
    requires v < TWO32
    ensures v % 0x100 + 0x100 * (v / 0x100 % 0x100) + 0x1_0000 * (v / 0x1_0000 % 0x100)
            + 0x100_0000 * (v / 0x100_0000) == v
    ensures v % 0x100 + 0x100 * (v / 0x100 % 0x100) == v % 0x1_0000
    ensures v / 0x1_0000 % 0x100 + 0x100 * (v / 0x100_0000) == v / 0x1_0000
  {
    var x := v / 0x100;
    var y := x / 0x100;
    Paired(v);
    Paired(x);
    Paired(y);
    Halved(v, v % 0x100 + 0x100 * (x % 0x100), y);
    Halved(x, x % 0x100 + 0x100 * (y % 0x100), y / 0x100);
    assert v / 0x100_0000 == y / 0x100;
  }

  /** Wherever a word is stored, it and its halves read back. */
  lemma WordRoundTrip(s: seq<byte>, i: nat, v: u32)
    requires i + 4 <= |s| && s[i..i + 4] == LittleEndian(v)
    ensures Word(s, i) == v && Half(s, i) == v % 0x1_0000 && Half(s, i + 2) == v / 0x1_0000
  {
    BytesOfWord(v);
    var w := s[i..i + 4];
    assert s[i] == w[0] && s[i + 1] == w[1] && s[i + 2] == w[2] && s[i + 3] == w[3];
    assert s[i] as nat == v % 0x100 && s[i + 1] as nat == v / 0x100 % 0x100;
    assert s[i + 2] as nat == v / 0x1_0000 % 0x100 && s[i + 3] as nat == v / 0x100_0000;
  }

  function Words(ws: seq<u32>): (r: seq<byte>)
    ensures |r| == 4 * |ws|
  {
    if ws == [] then [] else Words(ws[..|ws| - 1]) + LittleEndian(ws[|ws| - 1])
  }

  lemma {:induction false} WordsAt(ws: seq<u32>, k: nat)
    requires k < |ws|
    ensures Words(ws)[4 * k..4 * k + 4] == LittleEndian(ws[k])
  {
    if k < |ws| - 1 {
      WordsAt(ws[..|ws| - 1], k);
      assert Words(ws)[4 * k..4 * k + 4] == Words(ws[..|ws| - 1])[4 * k..4 * k + 4];
    }
  }

  /** Word k of a stored table of words. */
  lemma StoredWord(s: seq<byte>, at: nat, ws: seq<u32>, k: nat)
    requires at + 4 * |ws| <= |s| && k < |ws| && s[at..at + 4 * |ws|] == Words(ws)
    ensures Word(s, at + 4 * k) == ws[k]
    ensures Half(s, at + 4 * k) == ws[k] % 0x1_0000 && Half(s, at + 4 * k + 2) == ws[k] / 0x1_0000
  {
    hide LittleEndian, Words, Word, Half;
    WordsAt(ws, k);
    SliceSlice(s, at, 4 * |ws|, 4 * k, 4);
    WordRoundTrip(s, at + 4 * k, ws[k]);
  }

  /** Stores words one after the other. */
  method StoreWords(a: array<byte>, at: nat, ws: seq<u32>)
    requires at + 4 * |ws| <= a.Length
    modifies a
    ensures a[..] == Patch(old(a[..]), at, Words(ws))
  {
    hide LittleEndian;
    var k := 0;
    PatchNothing(a[..], at);
    while k < |ws|
      invariant 0 <= k <= |ws|
      invariant a[..] == Patch(old(a[..]), at, Words(ws[..k]))
    {
      assert ws[..k + 1][..k] == ws[..k];
      PatchJoin(old(a[..]), at, Words(ws[..k]), LittleEndian(ws[k]));
      StoreWord(a, at + 4 * k, ws[k]);
      k := k + 1;
    }
    assert ws[..k] == ws;
  }

  method StoreWord(a: array<byte>, at: nat, v: u32)
    requires at + 4 <= a.Length
    modifies a
    ensures a[..] == Patch(old(a[..]), at, LittleEndian(v))
  {
    a[at] := (v % 0x100) as byte;
    a[at + 1] := (v / 0x100 % 0x100) as byte;
    a[at + 2] := (v / 0x1_0000 % 0x100) as byte;
    a[at + 3] := (v / 0x100_0000) as byte;
  }
}
