/**
 * A singly linked list of unsigned 32-bit integers built from a recursive
 * two-case sum type: a `Cons` cell holds one element and owns the rest of the
 * list, and `Nil` ends it. The list offers an empty constructor, `Prepend`
 * (which wraps an existing list as the tail of a new head cell) and `Len`
 * (which counts the cells by structural recursion).
 *
 * The logical contents of a list are given by `Elements`, a sequence read
 * from the head; every operation is specified against it.
 */
module LinkedList {

  /** The source's `u32`. */
  newtype uint32 = x: int | 0 <= x < 0x1_0000_0000

  /** Number of distinct `uint32` values; `u32` arithmetic wraps modulo this. */
  const U32Modulus: int := 0x1_0000_0000

  datatype List = Cons(head: uint32, tail: List) | Nil

  /** Outcome of the length computation in `u32` arithmetic with overflow checks on. */
  datatype Checked = Ok(value: uint32) | Overflow

  // ---------------------------------------------------------------------------
  // Abstraction
  // ---------------------------------------------------------------------------

  /** The elements of `l`, from the head cell to the last cell before `Nil`. */
  function Elements(l: List): seq<uint32>
  {
    match l
    case Nil => []
    case Cons(h, t) => [h] + Elements(t)
  }

  /** The list whose elements, from the head, are `s`. */
  function FromSeq(s: seq<uint32>): (l: List)
    ensures Elements(l) == s
  {
    if s == [] then Nil else Cons(s[0], FromSeq(s[1..]))
  }

  /** `Elements` loses nothing: rebuilding a list from its elements gives it back. */
  lemma {:induction false} FromSeqElements(l: List)
    ensures FromSeq(Elements(l)) == l
  {
    match l
    case Nil =>
    case Cons(h, t) =>
      assert Elements(l)[0] == h;
      assert Elements(l)[1..] == Elements(t);
      FromSeqElements(t);
  }

  /** Two lists with the same elements are the same list. */
  lemma ElementsInjective(a: List, b: List)
    requires Elements(a) == Elements(b)
    ensures a == b
  {
    FromSeqElements(a);
    FromSeqElements(b);
  }

  // ---------------------------------------------------------------------------
  // Operations
  // ---------------------------------------------------------------------------

  /** `List::new`: the empty list. */
  function New(): (r: List)
    ensures Elements(r) == []
    ensures Len(r) == 0
  {
    Nil
  }

  /**
   * `List::prepend`: a new head cell holding `elem` whose tail is `l`,
   * unchanged; the new element comes first and the length grows by one.
   */
  function Prepend(l: List, elem: uint32): (r: List)
    ensures r.Cons? && r.head == elem && r.tail == l
    ensures Elements(r) == [elem] + Elements(l)
    ensures Len(r) == Len(l) + 1
  {
    Cons(elem, l)
  }

  /**
   * `List::len` over unbounded integers: the number of `Cons` cells,
   * 0 for `Nil` and one more than the tail's for a `Cons` cell.
   */
  function Len(l: List): (n: nat)
    ensures n == |Elements(l)|
  {
    match l
    case Nil => 0
    case Cons(_, t) => 1 + Len(t)
  }

  /**
   * `List::len` with the source's `u32` result and overflow checks on (the
   * Rust debug profile): `1 + tail.len()` overflows exactly when the list
   * has 2^32 cells or more.
   */
  function LenChecked(l: List): (r: Checked)
    ensures r.Ok? <==> Len(l) < U32Modulus
    ensures r.Ok? ==> r.value as int == Len(l)
  {
    match l
    case Nil => Ok(0)
    case Cons(_, t) =>
      match LenChecked(t)
      case Overflow => Overflow
      case Ok(n) => if 1 + n as int < U32Modulus then Ok((1 + n as int) as uint32) else Overflow
  }

  /**
   * `List::len` with the source's `u32` result and overflow checks off (the
   * Rust release profile): `1 + tail.len()` wraps, so the result is the
   * number of cells modulo 2^32.
   */
  function LenWrapping(l: List): (r: uint32)
    ensures r as int == Len(l) % U32Modulus
  {
    match l
    case Nil => 0
    case Cons(_, t) =>
      var n := LenWrapping(t);
      AddOneMod(Len(t));
      ((1 + n as int) % U32Modulus) as uint32
  }

  lemma AddOneMod(x: nat)
    ensures (1 + x % U32Modulus) % U32Modulus == (1 + x) % U32Modulus
  {
  }

  /**
   * The length computed by a loop over the tail chain with a `u32` counter
   * instead of recursion; it reports overflow in the same cases and
   * otherwise gives the same count as the recursive definition.
   */
  method LenLoop(l: List) returns (r: Checked)
    ensures r == LenChecked(l)
  {
    var cur := l;
    var n: uint32 := 0;
    while cur.Cons?
      invariant n as int + Len(cur) == Len(l)
      decreases cur
    {
      if n as int == U32Modulus - 1 {
        return Overflow;
      }
      n := n + 1;
      cur := cur.tail;
    }
    return Ok(n);
  }

  // ---------------------------------------------------------------------------
  // Length counts the cells before Nil
  // ---------------------------------------------------------------------------

  /** The list left after following `k` tail links (or `Nil` once it runs out). */
  function Drop(l: List, k: nat): List
  {
    if k == 0 then l
    else match l
      case Nil => Nil
      case Cons(_, t) => Drop(t, k - 1)
  }

  /** Following `n` tail links reaches `Nil`, and every cell met on the way is a `Cons` cell. */
  predicate ConsCellsBeforeNil(l: List, n: nat)
  {
    Drop(l, n) == Nil && forall k :: 0 <= k < n ==> Drop(l, k).Cons?
  }

  /**
   * `Len(l)` is the one `n` such that following `n` tail links reaches `Nil`
   * while every cell met before that is a `Cons` cell.
   */
  lemma {:induction false} LenIsConsCount(l: List, n: nat)
    ensures ConsCellsBeforeNil(l, n) <==> n == Len(l)
  {
    match l
    case Nil =>
      if n > 0 {
        assert Drop(l, 0).Nil?;
      }
    case Cons(_, t) =>
      if n == 0 {
        assert Drop(l, 0) != Nil;
      } else {
        LenIsConsCount(t, n - 1);
        ConsCellsBeforeNilStep(l, n);
      }
  }

  /** For a `Cons` cell, `n` cells end the list exactly when `n - 1` cells end its tail. */
  lemma ConsCellsBeforeNilStep(l: List, n: nat)
    requires l.Cons? && n > 0
    ensures ConsCellsBeforeNil(l, n) <==> ConsCellsBeforeNil(l.tail, n - 1)
  {
    var t := l.tail;
    assert Drop(l, n) == Drop(t, n - 1);
    if ConsCellsBeforeNil(t, n - 1) {
      forall k | 0 <= k < n ensures Drop(l, k).Cons? {
        if k > 0 {
          assert Drop(l, k) == Drop(t, k - 1);
        }
      }
    }
    if ConsCellsBeforeNil(l, n) {
      forall k | 0 <= k < n - 1 ensures Drop(t, k).Cons? {
        assert Drop(l, k + 1) == Drop(t, k);
      }
    }
  }

  // ---------------------------------------------------------------------------
  // Repeated prepending: most recent element first
  // ---------------------------------------------------------------------------

  /** `s` in reverse order. */
  function Reverse(s: seq<uint32>): seq<uint32>
  {
    if s == [] then [] else [s[|s| - 1]] + Reverse(s[..|s| - 1])
  }

  /** Prepends the elements of `xs` to `l` one after the other, first to last. */
  function PrependAll(l: List, xs: seq<uint32>): List
  {
    if xs == [] then l else Prepend(PrependAll(l, xs[..|xs| - 1]), xs[|xs| - 1])
  }

  /**
   * After prepending `xs` in order, the list reads `xs` backwards (the most
   * recently prepended element first) followed by the original elements,
   * and it is `|xs|` cells longer.
   */
  lemma {:induction false} PrependAllOrder(l: List, xs: seq<uint32>)
    ensures Elements(PrependAll(l, xs)) == Reverse(xs) + Elements(l)
    ensures Len(PrependAll(l, xs)) == Len(l) + |xs|
  {
    if xs != [] {
      var init, last := xs[..|xs| - 1], xs[|xs| - 1];
      PrependAllOrder(l, init);
      calc {
        Elements(PrependAll(l, xs));
        [last] + Elements(PrependAll(l, init));
        [last] + (Reverse(init) + Elements(l));
        ([last] + Reverse(init)) + Elements(l);
        Reverse(xs) + Elements(l);
      }
    }
  }

  // ---------------------------------------------------------------------------
  // Demonstration
  // ---------------------------------------------------------------------------

  /**
   * `link_enum_demo`: starts from the empty list, prepends 1, 2 and 3,
   * rebinding the list after each call, and yields the length it prints.
   */
  method LinkEnumDemo() returns (list: List, printed: uint32)
    ensures list == Cons(3, Cons(2, Cons(1, Nil)))
    ensures Elements(list) == [3, 2, 1]
    ensures list == PrependAll(New(), [1, 2, 3])
    ensures printed == 3
  {
    list := New();
    list := Prepend(list, 1);
    list := Prepend(list, 2);
    list := Prepend(list, 3);
    assert [1, 2, 3][..2] == [1, 2] && [1, 2][..1] == [1];
    printed := LenChecked(list).value;
  }
}
