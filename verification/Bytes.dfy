/**
  * Bytes, machine-width integers, and the 8-bit wrapping sum that both the
  * frame checksum and the Intel HEX checksum are built on.
  */
module Bytes {

  type Byte = b: int | 0 <= b < 0x100
  type U16 = n: int | 0 <= n < 0x1_0000
  type U32 = n: int | 0 <= n < 0x1_0000_0000
  type U64 = n: int | 0 <= n < 0x1_0000_0000_0000_0000

  datatype Option<+T> = None | Some(value: T)
  datatype Result<+T, +E> = Ok(value: T) | Err(error: E)

  function Min(a: int, b: int): int { if a <= b then a else b }

  /** The big-endian reading of two bytes. */
  function Be16(hi: Byte, lo: Byte): U16 { hi * 256 + lo }

  /** A left fold of `wrapping_add` over `s`, starting at 0. */
  function Sum8(s: seq<Byte>): Byte {
    if s == [] then 0 else (Sum8(s[..|s| - 1]) + s[|s| - 1]) % 256
  }

  /** `wrapping_sub` on 8 bits. */
  function WrappingSub(a: int, b: int): Byte { (a - b) % 256 }

  /** `n` elements, all equal to `x`. */
  function Repeat<T>(x: T, n: nat): (r: seq<T>)
    ensures |r| == n && forall i :: 0 <= i < n ==> r[i] == x
  {
    seq(n, _ => x)
  }

  /** The items of `parts` one after the other. */
  function Flatten<T>(parts: seq<seq<T>>): seq<T> {
    if parts == [] then [] else parts[0] + Flatten(parts[1..])
  }

  /** Re-bracketing a concatenation. */
  lemma Regroup<T>(x: seq<T>, y: seq<T>, z: seq<T>)
    ensures x + (y + z) == (x + y) + z
  {
  }

  /** What is left of a concatenation when its front is taken off. */
  lemma DropFront<T>(s: seq<T>, x: seq<T>, y: seq<T>)
    requires s == x + y
    ensures |x| <= |s| && s[|x|..] == y
  {
  }

  /** Taking one element off the first of three parts. */
  lemma Behead<T>(x: seq<T>, y: seq<T>, z: seq<T>)
    requires x != []
    ensures x + y + z == [x[0]] + (x[1..] + y + z)
    ensures (x + y + z)[0] == x[0] && (x + y + z)[1..] == x[1..] + y + z
  {
    assert x == [x[0]] + x[1..];
    assert x + y == [x[0]] + (x[1..] + y);
    Regroup([x[0]], x[1..] + y, z);
  }

  /** A sequence as its first part and what follows; and as its first part, a middle and a last item. */
  lemma SplitAt<T>(s: seq<T>, x: seq<T>)
    requires x <= s
    ensures s == x + s[|x|..]
    ensures |s| > |x| ==> s == x + s[|x|..|s| - 1] + [s[|s| - 1]]
  {
  }

  /** The plain sum of a byte string, folded from the front. */
  function Total(s: seq<Byte>): nat {
    if s == [] then 0 else s[0] + Total(s[1..])
  }

  lemma {:induction false} TotalSnoc(s: seq<Byte>, b: Byte)
    ensures Total(s + [b]) == Total(s) + b
  {
    if s == [] {
      assert [b][1..] == [];
    } else {
      assert (s + [b])[1..] == s[1..] + [b];
      TotalSnoc(s[1..], b);
    }
  }

  lemma AddMod(x: int, d: int)
    ensures (x % 256 + d) % 256 == (x + d) % 256
  {
  }

  /** The wrapping left fold is the plain sum mod 256. */
  lemma {:induction false} SumIsTotal(s: seq<Byte>)
    ensures Sum8(s) == Total(s) % 256
  {
    if s != [] {
      var init, b := s[..|s| - 1], s[|s| - 1];
      assert s == init + [b];
      SumIsTotal(init);
      TotalSnoc(init, b);
      hide Total;
      AddMod(Total(init), b);
    }
  }

  lemma {:induction false} TotalUpdate(s: seq<Byte>, i: nat, v: Byte)
    requires i < |s|
    ensures Total(s[i := v]) == Total(s) - s[i] + v
  {
    if i == 0 {
      assert s[0 := v][1..] == s[1..];
    } else {
      assert s[i := v][1..] == s[1..][i - 1 := v];
      TotalUpdate(s[1..], i - 1, v);
    }
  }

  /** Replacing one byte moves the sum by exactly the difference. */
  lemma SumUpdate(s: seq<Byte>, i: nat, v: Byte)
    requires i < |s|
    ensures Sum8(s[i := v]) == (Sum8(s) + (v - s[i])) % 256
  {
    SumIsTotal(s);
    SumIsTotal(s[i := v]);
    TotalUpdate(s, i, v);
    hide Sum8, Total;
    AddMod(Total(s), v - s[i]);
  }

  /** So a single changed byte always changes the sum. */
  lemma SumDetectsChange(s: seq<Byte>, i: nat, v: Byte)
    requires i < |s| && v != s[i]
    ensures Sum8(s[i := v]) != Sum8(s)
  {
    SumUpdate(s, i, v);
  }
}
