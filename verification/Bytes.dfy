/** Bytes, and the few sequence facts that every other module leans on. */
module Bytes {
  newtype byte = x: int | 0 <= x < 256

  type Bytes = seq<byte>

  const LF: byte := 10
  const CR: byte := 13
  const DOT: byte := 46

  datatype Option<+T> = None | Some(value: T)

  /** The bytes of a sequence of pieces, in order. */
  function Concat(pieces: seq<Bytes>): Bytes {
    if pieces == [] then [] else pieces[0] + Concat(pieces[1..])
  }

  lemma Reassociate<T>(a: seq<T>, b: seq<T>, c: seq<T>)
    ensures (a + b) + c == a + (b + c)
  {
  }

  lemma {:induction false} ConcatAppend(a: seq<Bytes>, b: seq<Bytes>)
    ensures Concat(a + b) == Concat(a) + Concat(b)
  {
    if a == [] {
      assert a + b == b;
    } else {
      assert (a + b)[1..] == a[1..] + b;
      ConcatAppend(a[1..], b);
      Reassociate(a[0], Concat(a[1..]), Concat(b));
    }
  }

  /** `t` is what is left of `s` after some of it has been taken. */
  predicate IsSuffix(t: Bytes, s: Bytes) {
    |t| <= |s| && t == s[|s| - |t|..]
  }

  lemma SuffixTransitive(u: Bytes, t: Bytes, s: Bytes)
    requires IsSuffix(u, t) && IsSuffix(t, s)
    ensures IsSuffix(u, s)
  {
  }
}

/** Peers, as the limiters tell them apart. */
module Net {
  type Ip = nat
}
