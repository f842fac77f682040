/** Registers as runs of bits, for any word type. */
module Registers {
  /** Any register that bits can be put into from below. Keeping it abstract keeps
      induction over bits apart from the arithmetic of machine words. */
  datatype Register<!W> = Register(
    zero: W,
    or: (W, W) -> W,
    up: W -> W,
    down: W -> W,
    one: bool -> W)

  /** The word whose bits are s, least significant first. */
  function Build<W>(f: Register<W>, s: seq<bool>): W
    decreases |s|
  {
    if s == [] then f.zero else f.or(f.one(s[0]), f.up(Build(f, s[1..])))
  }

  /** One bit moved up by n places. */
  function Moved<W>(f: Register<W>, b: bool, n: nat): W
    decreases n
  {
    if n == 0 then f.one(b) else f.up(Moved(f, b, n - 1))
  }

  function Reversed<T>(s: seq<T>): (r: seq<T>)
    ensures |r| == |s|
  {
    if s == [] then [] else Reversed(s[1..]) + [s[0]]
  }

  function Repeated(b: bool, n: nat): (z: seq<bool>)
    ensures |z| == n
  {
    if n == 0 then [] else [b] + Repeated(b, n - 1)
  }

  ghost predicate UpAdds<W(!new)>(f: Register<W>) {
    forall x, y :: f.up(f.or(x, y)) == f.or(f.up(x), f.up(y))
  }

  ghost predicate OrGroups<W(!new)>(f: Register<W>) {
    forall x, y, z :: f.or(x, f.or(y, z)) == f.or(f.or(x, y), z)
  }

  ghost predicate RightZero<W(!new)>(f: Register<W>) {
    f.up(f.zero) == f.zero && f.one(false) == f.zero && forall x :: f.or(x, f.zero) == x
  }

  ghost predicate OrLaws<W(!new)>(f: Register<W>) {
    UpAdds(f) && OrGroups(f) && RightZero(f)
  }

  ghost predicate LeftZero<W(!new)>(f: Register<W>) {
    forall x :: f.or(f.zero, x) == x
  }

  /** The two steps of putting a bit in at the other end. */
  ghost predicate Snocs<W(!new)>(f: Register<W>) {
    && (forall b :: f.or(f.one(b), f.up(f.zero)) == f.or(f.zero, f.one(b)))
    && forall o, x, m :: f.or(o, f.up(f.or(x, m))) == f.or(f.or(o, f.up(x)), f.up(m))
  }

  lemma SnocsFrom<W(!new)>(f: Register<W>)
    requires OrLaws(f) && LeftZero(f)
    ensures Snocs(f)
  {
  }

  /** Receiving one more bit: `value |= b << |s|`. */
  lemma {:induction false} BuildSnoc<W(!new)>(f: Register<W>, s: seq<bool>, b: bool)
    requires Snocs(f)
    ensures Build(f, s + [b]) == f.or(Build(f, s), Moved(f, b, |s|))
    decreases |s|
  {
    if s == [] {
      assert [] + [b] == [b] && [b][1..] == [];
    } else {
      BuildSnoc(f, s[1..], b);
      assert (s + [b])[1..] == s[1..] + [b] && (s + [b])[0] == s[0];
    }
  }

  /** A word of few bits is within any word of as many ones or more. */
  lemma {:induction false} BuildWithin<W(!new)>(f: Register<W>, within: (W, W) -> bool, s: seq<bool>, k: nat)
    requires |s| <= k && (forall x :: within(f.zero, x))
    requires forall w, m, b :: within(w, m) ==> within(f.or(f.one(b), f.up(w)), f.or(f.one(true), f.up(m)))
    ensures within(Build(f, s), Build(f, Repeated(true, k)))
    decreases |s|
  {
    if s != [] {
      BuildWithin(f, within, s[1..], k - 1);
      assert Repeated(true, k)[1..] == Repeated(true, k - 1);
    }
  }

  /** Bits that fall out at the bottom are the bits put in. */
  lemma {:induction false} SameBits<W>(f: Register<W>, low: W -> bool, s: seq<bool>, t: seq<bool>, size: nat)
    requires |s| == |t| <= size && Build(f, s) == Build(f, t)
    requires forall u: seq<bool> | 0 < |u| <= size ::
      low(Build(f, u)) == u[0] && f.down(Build(f, u)) == Build(f, u[1..])
    ensures s == t
    decreases |s|
  {
    if s != [] {
      SameBits(f, low, s[1..], t[1..], size);
      assert s == [s[0]] + s[1..] && t == [t[0]] + t[1..];
    }
  }

  lemma SnocsTop<W(!new)>(f: Register<W>, size: nat)
    requires size > 0 && Snocs(f)
    ensures TopPut(f, size)
  {
    forall r: seq<bool>, b | |r| == size - 1 ensures Build(f, r + [b]) == f.or(Build(f, r), Moved(f, b, size - 1)) {
      BuildSnoc(f, r, b);
    }
  }

  /** A bit put in at the top of a word of size bits, and one that falls out below. */
  ghost predicate TopPut<W(!new)>(f: Register<W>, size: nat)
    requires size > 0
  {
    forall r: seq<bool>, b :: |r| == size - 1 ==> Build(f, r + [b]) == f.or(Build(f, r), Moved(f, b, size - 1))
  }

  ghost predicate LowDrops<W(!new)>(f: Register<W>, size: nat) {
    forall u: seq<bool> :: 0 < |u| <= size ==> Dropped(f, u)
  }

  predicate Dropped<W(==)>(f: Register<W>, u: seq<bool>)
    requires u != []
  {
    f.down(Build(f, u)) == Build(f, u[1..])
  }

  ghost predicate TurnsAround<W(!new)>(f: Register<W>, reverse: W -> W, size: nat)
    requires size > 0
  {
    forall x, b :: reverse(f.or(f.one(b), f.up(x))) == f.or(f.down(reverse(x)), Moved(f, b, size - 1))
  }

  ghost predicate ReverseAdds<W(!new)>(f: Register<W>, reverse: W -> W) {
    forall x, y :: reverse(f.or(x, y)) == f.or(reverse(y), reverse(x))
  }

  ghost predicate ReverseMoves<W(!new)>(f: Register<W>, reverse: W -> W, size: nat)
    requires size > 0
  {
    && (forall x :: reverse(f.up(x)) == f.down(reverse(x)))
    && forall b :: reverse(f.one(b)) == Moved(f, b, size - 1)
  }

  lemma TurnsFrom<W(!new)>(f: Register<W>, reverse: W -> W, size: nat)
    requires size > 0 && ReverseAdds(f, reverse) && ReverseMoves(f, reverse, size)
    ensures TurnsAround(f, reverse, size)
  {
  }

  /** The bits turned around, at the top of a word. */
  function Padded(s: seq<bool>, size: nat): (p: seq<bool>)
    requires |s| <= size
    ensures |p| == size
  {
    Repeated(false, size - |s|) + Reversed(s)
  }

  lemma PaddedStep(s: seq<bool>, size: nat)
    requires 0 < |s| <= size
    ensures var r := Repeated(false, size - |s|) + Reversed(s[1..]);
      Padded(s[1..], size) == [false] + r && Padded(s, size) == r + [s[0]]
  {
    assert Repeated(false, size - |s| + 1) == [false] + Repeated(false, size - |s|);
  }

  /** What turns a bit put in below into the bit put in above turns the low bits of a word
      into its high ones. */
  lemma {:induction false} ReverseBuild<W(!new)>(f: Register<W>, reverse: W -> W, s: seq<bool>, size: nat)
    requires |s| <= size && size > 0
    requires reverse(f.zero) == Build(f, Repeated(false, size))
    requires TurnsAround(f, reverse, size) && LowDrops(f, size) && TopPut(f, size)
    ensures reverse(Build(f, s)) == Build(f, Padded(s, size))
    decreases |s|
  {
    if s == [] {
      assert Padded(s, size) == Repeated(false, size);
    } else {
      ReverseBuild(f, reverse, s[1..], size);
      PaddedStep(s, size);
      ReverseStep(f, reverse, s, Repeated(false, size - |s|) + Reversed(s[1..]), size);
    }
  }

  lemma ReverseStep<W(!new)>(f: Register<W>, reverse: W -> W, s: seq<bool>, r: seq<bool>, size: nat)
    requires s != [] && |r| == size - 1
    requires TurnsAround(f, reverse, size) && LowDrops(f, size) && TopPut(f, size)
    requires reverse(Build(f, s[1..])) == Build(f, [false] + r)
    ensures reverse(Build(f, s)) == Build(f, r + [s[0]])
  {
    var x := Build(f, s[1..]);
    assert reverse(f.or(f.one(s[0]), f.up(x))) == f.or(f.down(reverse(x)), Moved(f, s[0], size - 1));
    assert Dropped(f, [false] + r) && ([false] + r)[1..] == r;
    assert Build(f, r + [s[0]]) == f.or(Build(f, r), Moved(f, s[0], size - 1));
  }

  lemma {:induction false} BuildZeros<W(!new)>(f: Register<W>, n: nat)
    requires OrLaws(f)
    ensures Build(f, Repeated(false, n)) == f.zero
    decreases n
  {
    if n > 0 {
      BuildZeros(f, n - 1);
      assert Repeated(false, n)[1..] == Repeated(false, n - 1);
    }
  }
}
