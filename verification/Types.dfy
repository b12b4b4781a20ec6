// Vocabulary shared by the memory modules: pages, permissions, optional values.
module Types {

  datatype Option<+T> = None | Some(value: T)

  newtype byte = x: int | 0 <= x < 256

  const PAGE_SIZE: nat := 4096

  /** One page of physical memory. */
  type Page = p: seq<byte> | |p| == PAGE_SIZE witness seq(PAGE_SIZE, _ => 0)

  /** One block of a block device. */
  type Block = seq<byte>

  function ZeroPage(): Page { seq(PAGE_SIZE, _ => 0) }

  /** The R, W, X, U permission bits of an area or a page-table entry. */
  datatype Perm = Perm(r: bool, w: bool, x: bool, u: bool) {
    function WithoutW(): Perm { this.(w := false) }
  }

  function Min(a: nat, b: nat): nat { if a < b then a else b }

  function Reversed<T>(v: seq<T>): seq<T> {
    if v == [] then [] else Reversed(v[1..]) + [v[0]]
  }

  lemma ReversedCons<T>(x: T, v: seq<T>)
    ensures Reversed([x] + v) == Reversed(v) + [x]
  {
    assert ([x] + v)[1..] == v;
  }

  lemma {:induction false} ReversedSnoc<T>(v: seq<T>, x: T)
    ensures Reversed(v + [x]) == [x] + Reversed(v)
  {
    if v != [] {
      ReversedSnoc(v[1..], x);
      assert (v + [x])[1..] == v[1..] + [x];
    }
  }

  lemma {:induction false} ReversedTwice<T>(v: seq<T>)
    ensures Reversed(Reversed(v)) == v
  {
    if v != [] {
      ReversedTwice(v[1..]);
      ReversedSnoc(Reversed(v[1..]), v[0]);
    }
  }

  /** No element occurs twice. */
  ghost predicate Distinct<T>(s: seq<T>) {
    forall i, j :: 0 <= i < j < |s| ==> s[i] != s[j]
  }

  function Last(s: seq<nat>): nat
    requires |s| > 0
  {
    s[|s| - 1]
  }

  function DropLast(s: seq<nat>): seq<nat>
    requires |s| > 0
  {
    s[..|s| - 1]
  }

  lemma TailIn(s: seq<nat>)
    requires s != []
    ensures forall x :: x in s[1..] ==> x in s
  {
    assert s == [s[0]] + s[1..];
  }

  /** Popping the last element of a duplicate-free sequence removes exactly that element. */
  lemma PopLast(s: seq<nat>)
    requires |s| > 0 && Distinct(s)
    ensures Distinct(DropLast(s))
    ensures Last(s) in s && Last(s) !in DropLast(s)
    ensures forall x: nat :: x in s <==> x == Last(s) || x in DropLast(s)
  {
    assert s == DropLast(s) + [Last(s)];
  }

  /** Pushing keeps a sequence duplicate-free exactly when the element is new. */
  lemma PushDistinct(s: seq<nat>, x: nat)
    requires Distinct(s)
    ensures Distinct(s + [x]) <==> x !in s
    ensures forall y: nat :: y in s + [x] <==> y == x || y in s
  {
    assert (s + [x])[|s|] == x;
    if x in s {
      var i :| 0 <= i < |s| && s[i] == x;
      assert (s + [x])[i] == x;
    }
  }

  function Below(n: nat): set<nat> {
    if n == 0 then {} else Below(n - 1) + {n - 1}
  }

  lemma {:induction false} BelowSize(n: nat)
    ensures |Below(n)| == n
    ensures forall i: nat :: i in Below(n) <==> i < n
  {
    if n > 0 {
      BelowSize(n - 1);
    }
  }

  lemma {:induction false} ModShift(r: nat, m: nat, t: nat)
    requires m > 0
    ensures (r + m * t) % m == r % m
    decreases t
  {
    if t > 0 {
      ModShift(r, m, t - 1);
      var x := r + m * (t - 1);
      assert r + m * t == x + m;
      assert (x + m) % m == x % m by {
        assert x == m * (x / m) + x % m;
        ModUnique(x + m, m, x / m + 1, x % m);
      }
    }
  }

  lemma ModUnique(x: nat, m: nat, q: nat, r: nat)
    requires m > 0 && r < m && x == m * q + r
    ensures x % m == r
  {
    var p, s := x / m, x % m;
    assert x == m * p + s;
    if p > q {
      MulAtLeast(m, p - q);
    } else if p < q {
      MulAtLeast(m, q - p);
    }
  }

  /** Adding less than the modulus wraps at most once. */
  lemma ModStep(x: nat, t: nat, m: nat)
    requires t < m
    ensures (x + t) % m == if x % m + t < m then x % m + t else x % m + t - m
  {
    var q, r := x / m, x % m;
    assert x == m * q + r;
    if r + t < m {
      ModUnique(x + t, m, q, r + t);
    } else {
      assert m * (q + 1) == m * q + m;
      ModUnique(x + t, m, q + 1, r + t - m);
    }
  }

  lemma {:induction false} MulAtLeast(m: nat, d: nat)
    requires d > 0
    ensures m * d >= m
    decreases d
  {
    if d > 1 {
      MulAtLeast(m, d - 1);
      assert m * d == m * (d - 1) + m;
    }
  }

  lemma {:induction false} SubsetSize(a: set<nat>, b: set<nat>)
    requires a <= b
    ensures |a| <= |b|
  {
    if a != {} {
      var x :| x in a;
      SubsetSize(a - {x}, b - {x});
    }
  }

  function Elements(s: seq<nat>): set<nat> {
    set x | x in s
  }

  lemma {:induction false} ElementsSize(s: seq<nat>)
    requires Distinct(s)
    ensures |Elements(s)| == |s|
  {
    if s != [] {
      PopLast(s);
      ElementsSize(DropLast(s));
      assert Elements(s) == Elements(DropLast(s)) + {Last(s)};
    }
  }

  /** Places in a grid of `m` columns are different when their rows are. */
  lemma RowsDiffer(m: nat, x: nat, i: nat, y: nat, j: nat)
    requires i < m && j < m && x != y
    ensures x * m + i != y * m + j
  {
    if x < y {
      MulAtLeast(m, y - x);
      assert y * m == x * m + m * (y - x);
    } else {
      MulAtLeast(m, x - y);
      assert x * m == y * m + m * (x - y);
    }
  }

  lemma RowFits(m: nat, x: nat, n: nat)
    requires x < n
    ensures x * m + m <= n * m
  {
    MulAtLeast(m, n - x);
    assert n * m == x * m + m * (n - x);
  }

  /** Pages that start below the address, rounded up. */
  function PageCeil(addr: nat): nat {
    (addr + PAGE_SIZE - 1) / PAGE_SIZE
  }

  /** The page before the ceiling is the last one that starts below the address. */
  lemma PageCeilIs(v: nat, x: nat)
    ensures v < PageCeil(x) <==> v * PAGE_SIZE < x
  {
  }

  /** A page is in the page range of some bytes exactly when it holds one of them. */
  lemma InRangeIff(v: nat, start: nat, len: nat)
    requires start % PAGE_SIZE == 0
    ensures start / PAGE_SIZE <= v < PageCeil(start + len)
            <==> v * PAGE_SIZE < start + len && start < (v + 1) * PAGE_SIZE
  {
    PageCeilIs(v, start + len);
  }

  lemma CeilBounds(start: nat, len: nat)
    requires start % PAGE_SIZE == 0
    ensures start / PAGE_SIZE <= PageCeil(start + len)
    ensures start / PAGE_SIZE == PageCeil(start + len) <==> len == 0
  {
  }
}
