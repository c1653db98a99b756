// Bytes, glyphs and the text they make up, and the two shapes every loop over
// them has: a map that yields several items per item, and a machine that reads
// items one at a time and yields some as it goes.
module Bytes {
  // The source's uint8_t and char32_t. Masks and shifts are written as ranges and
  // as division, remainder and multiplication by powers of two.
  newtype Byte = b: int | 0 <= b < 0x100
  newtype Glyph = g: int | 0 <= g < 0x1_0000_0000
  type Text = seq<Byte>

  datatype Option<+T> = None | Some(value: T)

  const AMP: Byte := 0x26
  const LT: Byte := 0x3c
  const GT: Byte := 0x3e
  const SEMICOLON: Byte := 0x3b
  const HASH: Byte := 0x23
  const PERCENT: Byte := 0x25
  const EQUALS: Byte := 0x3d
  const SLASH: Byte := 0x2f

  // Every byte is a 7-bit one.
  predicate IsAscii(t: Text) {
    forall i :: 0 <= i < |t| ==> t[i] < 0x80
  }

  lemma Associative<A>(a: seq<A>, b: seq<A>, c: seq<A>)
    ensures (a + b) + c == a + (b + c)
  {
  }

  // ----- Mapping -----

  function FlatMap<A, B>(f: A -> seq<B>, s: seq<A>): seq<B> {
    if s == [] then [] else f(s[0]) + FlatMap(f, s[1..])
  }

  lemma FlatMapNone<A, B>(f: A -> seq<B>)
    ensures FlatMap(f, []) == []
  {
  }

  lemma FlatMapOne<A, B>(f: A -> seq<B>, a: A)
    ensures FlatMap(f, [a]) == f(a)
  {
    assert FlatMap(f, [a]) == f([a][0]) + FlatMap(f, [a][1..]);
  }

  lemma {:induction false} FlatMapConcat<A, B>(f: A -> seq<B>, s: seq<A>, t: seq<A>)
    ensures FlatMap(f, s + t) == FlatMap(f, s) + FlatMap(f, t)
  {
    if s == [] {
      assert s + t == t;
    } else {
      FlatMapConcat(f, s[1..], t);
      assert (s + t)[1..] == s[1..] + t && (s + t)[0] == s[0];
      Associative(f(s[0]), FlatMap(f, s[1..]), FlatMap(f, t));
    }
  }

  // The step a loop makes: one more item at the end.
  lemma FlatMapExtend<A, B>(f: A -> seq<B>, s: seq<A>, i: nat)
    requires i < |s|
    ensures FlatMap(f, s[..i + 1]) == FlatMap(f, s[..i]) + f(s[i])
  {
    assert s[..i + 1] == s[..i] + [s[i]];
    FlatMapConcat(f, s[..i], [s[i]]);
    FlatMapOne(f, s[i]);
  }

  lemma {:induction false} MapsAgree<A, B>(f: A -> seq<B>, g: A -> seq<B>, s: seq<A>)
    requires forall a :: a in s ==> f(a) == g(a)
    ensures FlatMap(f, s) == FlatMap(g, s)
  {
    if s != [] {
      MapsAgree(f, g, s[1..]);
    }
  }

  // ----- Machines -----

  // A machine's step: from a state and an item to the next state and the output.
  type Machine<!S, !A, !B> = (S, A) -> (S, seq<B>)

  function Final<S, A, B>(m: Machine<S, A, B>, st: S, s: seq<A>): S {
    if s == [] then st else Final(m, m(st, s[0]).0, s[1..])
  }

  function Output<S, A, B>(m: Machine<S, A, B>, st: S, s: seq<A>): seq<B> {
    if s == [] then [] else m(st, s[0]).1 + Output(m, m(st, s[0]).0, s[1..])
  }

  lemma MachineNone<S, A, B>(m: Machine<S, A, B>, st: S)
    ensures Final(m, st, []) == st && Output(m, st, []) == []
  {
  }

  lemma MachineOne<S, A, B>(m: Machine<S, A, B>, st: S, a: A)
    ensures Final(m, st, [a]) == m(st, a).0
    ensures Output(m, st, [a]) == m(st, a).1
  {
    assert [a][1..] == [];
    assert Final(m, st, [a]) == Final(m, m(st, [a][0]).0, [a][1..]);
    assert Output(m, st, [a]) == m(st, [a][0]).1 + Output(m, m(st, [a][0]).0, [a][1..]);
  }

  lemma {:induction false} MachineConcat<S, A, B>(m: Machine<S, A, B>, st: S, s: seq<A>, t: seq<A>)
    ensures Final(m, st, s + t) == Final(m, Final(m, st, s), t)
    ensures Output(m, st, s + t) == Output(m, st, s) + Output(m, Final(m, st, s), t)
  {
    if s == [] {
      assert s + t == t;
    } else {
      var st' := m(st, s[0]).0;
      MachineConcat(m, st', s[1..], t);
      assert (s + t)[1..] == s[1..] + t && (s + t)[0] == s[0];
      Associative(m(st, s[0]).1, Output(m, st', s[1..]), Output(m, Final(m, st', s[1..]), t));
    }
  }

  lemma MachineExtend<S, A, B>(m: Machine<S, A, B>, st: S, s: seq<A>, i: nat)
    requires i < |s|
    ensures Final(m, st, s[..i + 1]) == m(Final(m, st, s[..i]), s[i]).0
    ensures Output(m, st, s[..i + 1]) == Output(m, st, s[..i]) + m(Final(m, st, s[..i]), s[i]).1
  {
    assert s[..i + 1] == s[..i] + [s[i]];
    MachineConcat(m, st, s[..i], [s[i]]);
    MachineOne(m, Final(m, st, s[..i]), s[i]);
  }
}
