/** Bytes and the lexicographic order that std::array's <=> has on them. */
module Bytes {
  import opened Orders

  type Byte = b: nat | b < 256

  function ByteLess(): (Byte, Byte) -> bool { (a: Byte, b: Byte) => a < b }

  function CharLess(): (char, char) -> bool { (a: char, b: char) => a < b }

  predicate LexLess<T(==)>(lt: (T, T) -> bool, a: seq<T>, b: seq<T>) {
    b != [] && (a == [] || lt(a[0], b[0]) || (a[0] == b[0] && LexLess(lt, a[1..], b[1..])))
  }

  /** The same order, by the first position at which two sequences of one length differ. */
  lemma {:induction false} FirstDifference<T>(lt: (T, T) -> bool, a: seq<T>, b: seq<T>, k: nat)
    requires |a| == |b| && k <= |a| && a[..k] == b[..k]
    ensures LexLess(lt, a, b) <==> LexLess(lt, a[k..], b[k..]) || (exists i :: 0 <= i < k && lt(a[i], b[i]))
  {
    if k == 0 {
      assert a[0..] == a && b[0..] == b;
    } else {
      assert a[0] == a[..k][0] == b[..k][0] == b[0];
      assert a[1..][..k - 1] == a[..k][1..] && b[1..][..k - 1] == b[..k][1..];
      FirstDifference(lt, a[1..], b[1..], k - 1);
      assert a[1..][k - 1..] == a[k..] && b[1..][k - 1..] == b[k..];
      if i :| 0 <= i < k && lt(a[i], b[i]) {
        if i > 0 { assert a[1..][i - 1] == a[i] && b[1..][i - 1] == b[i]; }
      }
    }
  }

  lemma {:induction false} LexTrichotomy<T(!new)>(lt: (T, T) -> bool, a: seq<T>, b: seq<T>)
    requires TotalOrder(lt)
    ensures LexLess(lt, a, b) || a == b || LexLess(lt, b, a)
    ensures !(LexLess(lt, a, b) && LexLess(lt, b, a))
    ensures LexLess(lt, a, b) ==> a != b
  {
    if a != [] && b != [] {
      if a[0] == b[0] {
        LexTrichotomy(lt, a[1..], b[1..]);
        assert a == [a[0]] + a[1..] && b == [b[0]] + b[1..];
      } else {
        assert !Equivalent(lt, a[0], b[0]);
      }
    }
  }

  lemma {:induction false} LexTransitive<T(!new)>(lt: (T, T) -> bool, a: seq<T>, b: seq<T>, c: seq<T>)
    requires TotalOrder(lt)
    requires LexLess(lt, a, b) && LexLess(lt, b, c)
    ensures LexLess(lt, a, c)
  {
    if a != [] && a[0] == b[0] && b[0] == c[0] {
      LexTransitive(lt, a[1..], b[1..], c[1..]);
    }
  }

  /** Lexicographic order over a total order is total. */
  lemma LexIsTotal<T(!new)>(lt: (T, T) -> bool)
    requires TotalOrder(lt)
    ensures TotalOrder((a: seq<T>, b: seq<T>) => LexLess(lt, a, b))
  {
    var lex := (a: seq<T>, b: seq<T>) => LexLess(lt, a, b);
    forall a ensures !lex(a, a) { LexTrichotomy(lt, a, a); }
    forall a, b, c | lex(a, b) && lex(b, c) ensures lex(a, c) { LexTransitive(lt, a, b, c); }
    forall a, b | Equivalent(lex, a, b) ensures a == b { LexTrichotomy(lt, a, b); }
  }

  /** Appending the same text in front does not change the order. */
  lemma {:induction false} LexSamePrefix<T(!new)>(lt: (T, T) -> bool, p: seq<T>, a: seq<T>, b: seq<T>)
    requires TotalOrder(lt)
    ensures LexLess(lt, p + a, p + b) <==> LexLess(lt, a, b)
  {
    if p == [] {
      assert p + a == a && p + b == b;
    } else {
      assert (p + a)[1..] == p[1..] + a && (p + b)[1..] == p[1..] + b;
      LexSamePrefix(lt, p[1..], a, b);
    }
  }

  /** Sequences whose equally long beginnings differ are ordered by those beginnings. */
  lemma {:induction false} LexByPrefix<T(!new)>(lt: (T, T) -> bool, p: seq<T>, q: seq<T>, a: seq<T>, b: seq<T>)
    requires TotalOrder(lt) && |p| == |q| && LexLess(lt, p, q)
    ensures LexLess(lt, p + a, q + b)
  {
    assert (p + a)[0] == p[0] && (q + b)[0] == q[0];
    if p[0] == q[0] {
      assert (p + a)[1..] == p[1..] + a && (q + b)[1..] == q[1..] + b;
      LexByPrefix(lt, p[1..], q[1..], a, b);
    }
  }

  /** The number a big-endian byte sequence stands for: bytearray_cast, which swaps on little-endian machines. */
  function BigEndian(s: seq<Byte>): nat {
    if s == [] then 0 else s[0] * Pow256(|s| - 1) + BigEndian(s[1..])
  }

  function Pow256(k: nat): (r: nat)
    ensures r > 0
  {
    if k == 0 then 1 else 256 * Pow256(k - 1)
  }

  lemma {:induction false} BigEndianBound(s: seq<Byte>)
    ensures BigEndian(s) < Pow256(|s|)
  {
    if s != [] {
      BigEndianBound(s[1..]);
      HigherDigit(s[0], 256, Pow256(|s| - 1), BigEndian(s[1..]), 0);
    }
  }

  /** Comparing the numbers is comparing the bytes lexicographically. */
  lemma {:induction false} BigEndianOrder(a: seq<Byte>, b: seq<Byte>)
    requires |a| == |b|
    ensures BigEndian(a) < BigEndian(b) <==> LexLess(ByteLess(), a, b)
    ensures BigEndian(a) == BigEndian(b) <==> a == b
  {
    if a != [] {
      BigEndianOrder(a[1..], b[1..]);
      BigEndianBound(a[1..]);
      BigEndianBound(b[1..]);
      assert a == [a[0]] + a[1..] && b == [b[0]] + b[1..];
      var p := Pow256(|a| - 1);
      HigherDigit(a[0], b[0], p, BigEndian(a[1..]), BigEndian(b[1..]));
      HigherDigit(b[0], a[0], p, BigEndian(b[1..]), BigEndian(a[1..]));
    }
  }

  lemma HigherDigit(x: nat, y: nat, p: nat, lowX: nat, lowY: nat)
    requires lowX < p && lowY < p
    ensures x < y ==> x * p + lowX < y * p + lowY
  {
    if x < y { assert (x + 1) * p <= y * p; }
  }

  /** The number a little-endian byte sequence stands for. */
  function LittleEndian(s: seq<Byte>): nat {
    if s == [] then 0 else s[0] + 256 * LittleEndian(s[1..])
  }

  lemma FourByteNumbers(b: seq<Byte>)
    requires |b| == 4
    ensures var b0: int, b1: int, b2: int, b3: int := b[0], b[1], b[2], b[3];
      && BigEndian(b) == b0 * 0x100_0000 + b1 * 0x1_0000 + b2 * 0x100 + b3
      && LittleEndian(b) == b0 + b1 * 0x100 + b2 * 0x1_0000 + b3 * 0x100_0000
  {
    var c := b[1..];
    var d := c[1..];
    var e := d[1..];
    var c0: int, d0: int, e0: int := c[0], d[0], e[0];
    assert Pow256(1) == 256 && Pow256(2) == 0x1_0000 && Pow256(3) == 0x100_0000;
    assert e[1..] == [];
    assert BigEndian(e) == LittleEndian(e) == e0;
    assert BigEndian(d) == d0 * 256 + e0 && LittleEndian(d) == d0 + 256 * e0;
    assert BigEndian(c) == c0 * 0x1_0000 + BigEndian(d) && LittleEndian(c) == c0 + 256 * LittleEndian(d);
  }
}
