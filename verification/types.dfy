/** What several parts of the kernel share: bytes, little-endian numbers, and lists of addresses. */
module Types {

  type Byte = x: nat | x < 256

  datatype Option<T> = None | Some(value: T)

  /** The numbers that start at position `at`, lowest byte first. */
  function U16(data: seq<Byte>, at: nat): nat
    requires at + 2 <= |data|
  {
    (data[at] as nat) + 256 * (data[at + 1] as nat)
  }

  function U32(data: seq<Byte>, at: nat): (r: nat)
    requires at + 4 <= |data|
    ensures r < 0x1_0000_0000
  {
    U16(data, at) + 0x1_0000 * U16(data, at + 2)
  }

  /** How a format writes a number of 16 or 32 bits: lowest byte first. */
  function Le16(n: nat): (r: seq<Byte>)
    requires n < 0x1_0000
    ensures |r| == 2
  {
    [n % 0x100, n / 0x100]
  }

  function Le32(n: nat): (r: seq<Byte>)
    requires n < 0x1_0000_0000
    ensures |r| == 4
  {
    [n % 0x100, n / 0x100 % 0x100, n / 0x1_0000 % 0x100, n / 0x100_0000]
  }

  /** What is written is read back. */
  lemma ReadBack16(data: seq<Byte>, at: nat, n: nat)
    requires n < 0x1_0000 && at + 2 <= |data| && data[at..at + 2] == Le16(n)
    ensures U16(data, at) == n
  {
    assert data[at] == data[at..at + 2][0] && data[at + 1] == data[at..at + 2][1];
  }

  lemma ReadBack32(data: seq<Byte>, at: nat, n: nat)
    requires n < 0x1_0000_0000 && at + 4 <= |data| && data[at..at + 4] == Le32(n)
    ensures U32(data, at) == n
  {
    var w := data[at..at + 4];
    assert data[at] == w[0] && data[at + 1] == w[1] && data[at + 2] == w[2] && data[at + 3] == w[3];
    assert n == n % 0x1_0000 + 0x1_0000 * (n / 0x1_0000);
    assert n % 0x1_0000 == n % 0x100 + 0x100 * (n / 0x100 % 0x100);
  }

  /** A field inside a piece of the data. */
  lemma FieldOf(data: seq<Byte>, at: nat, piece: seq<Byte>, from: nat, to: nat)
    requires at + |piece| <= |data| && data[at..at + |piece|] == piece && from <= to <= |piece|
    ensures data[at + from..at + to] == piece[from..to]
  {
    forall i | from <= i < to
      ensures data[at + i] == piece[i]
    {
      assert data[at..at + |piece|][i] == data[at + i];
    }
  }

  /** The address that the link of element `i` of a linked list holds; 0 is the null pointer. */
  function Next(list: seq<nat>, i: int): nat
    requires -1 <= i < |list|
  {
    if i + 1 < |list| then list[i + 1] else 0
  }

  // ----- counting

  predicate IsBelow(i: nat, n: nat) { i < n }

  /** The numbers below `n`. */
  ghost function Below(n: nat): (r: set<nat>)
    ensures forall i: nat :: i in r <==> i < n
  {
    set i: nat | i < n && IsBelow(i, n)
  }

  lemma {:induction false} BelowSize(n: nat)
    ensures |Below(n)| == n
  {
    if n > 0 {
      BelowSize(n - 1);
      assert Below(n) == Below(n - 1) + {n - 1};
    }
  }

  lemma SubsetSize(a: set<nat>, b: set<nat>)
    requires a <= b
    ensures |a| <= |b|
    ensures |a| == |b| ==> a == b
  {
    if a != b {
      var rest := b - a;
      assert b == a + rest && rest != {};
    }
  }

  ghost function Elements(s: seq<nat>): (r: set<nat>)
    ensures forall x :: x in r <==> x in s
  {
    set x | x in s
  }

  lemma {:induction false} DistinctSize(s: seq<nat>)
    requires forall i, j :: 0 <= i < j < |s| ==> s[i] != s[j]
    ensures |Elements(s)| == |s|
  {
    if s != [] {
      var front, last := s[..|s| - 1], s[|s| - 1];
      DistinctSize(front);
      assert s == front + [last];
      assert Elements(s) == Elements(front) + {last};
      assert last !in Elements(front);
    }
  }

  /** More numbers below `bound` than there are: two of them are the same. */
  lemma PigeonHole(s: seq<nat>, bound: nat)
    requires |s| > bound && forall k :: 0 <= k < |s| ==> s[k] < bound
    ensures exists i, j :: 0 <= i < j < |s| && s[i] == s[j]
  {
    if forall i, j :: 0 <= i < j < |s| ==> s[i] != s[j] {
      DistinctSize(s);
      BelowSize(bound);
      SubsetSize(Elements(s), Below(bound));
    }
  }

  lemma MulOrder(x: int, y: int, z: nat)
    requires x <= y
    ensures x * z <= y * z
  {
    assert (y - x) * z >= 0;
  }
}
