# Linked list of `u32` values

This project models the singly linked list in `main.rs`: the recursive enum
`List` with a `Cons(u32, Box<List>)` cell and an end marker `Nil`, its
constructor `new`, `prepend` (which consumes a list and makes it the tail of a
new head cell), `len` (which counts the cells by structural recursion) and the
demonstration `link_enum_demo` that prepends 1, 2 and 3 to an empty list and
reports the length.

Everything lives in one module, `LinkedList` (`linked_list.dfy`). The enum is
the datatype `List`; `u32` is the newtype `uint32`. The logical contents of a
list are `Elements(l)`, the sequence of its values from the head cell, and
every operation is specified against it. `FromSeq` rebuilds a list from such a
sequence, and the two are proved inverse, so nothing is lost by reasoning
about `Elements`.

`len` returns `u32` and computes `1 + tail.len()` in `u32` arithmetic. The
model keeps the mathematical count `Len` (a `nat`) and states the source's
`u32` result for both Rust build profiles:

- `LenChecked`: overflow checks on (debug builds), where the addition panics.
  The panic is the `Overflow` result, and it happens exactly when the list has
  2^32 cells or more.
- `LenWrapping`: overflow checks off (release builds), where the addition
  wraps and the result is the count modulo 2^32.

`len` borrows the list (`&self`, `ref tail`) and does not change it. In the
model every operation is a function on immutable values, so a call cannot
change the list, and two calls on the same list give the same result.
`LenLoop` is a loop over the tail chain with a `u32` counter. It computes the
same result as the recursive `len` without recursion depth.

## Model

| member | source | states |
|---|---|---|
| `LinkedList.New` | main.rs:73-76 | the new list has no elements and length 0 |
| `LinkedList.Prepend` | main.rs:79-82 | the result is a cell whose head is `elem` and whose tail is the given list, unchanged; its elements are `elem` followed by the old elements; its length is one more |
| `LinkedList.Len` | main.rs:85-95 | the length is the number of elements of the list |
| `LinkedList.LenIsConsCount` | main.rs:88-94 | `Len(l)` is exactly the `n` for which following `n` tail links reaches `Nil` with every earlier cell a `Cons` cell (both directions) |
| `LinkedList.LenChecked` | main.rs:85-95 | with `u32` overflow checks, `len` succeeds if and only if the list has fewer than 2^32 cells, and then returns the cell count |
| `LinkedList.LenWrapping` | main.rs:85-95 | with wrapping `u32` arithmetic, `len` returns the cell count modulo 2^32 |
| `LinkedList.LenLoop` | main.rs:85-95 | a loop over the tail chain with a `u32` counter gives the same result as the recursive checked `len`, overflow included |
| `LinkedList.FromSeqElements` | main.rs:63-68 | a list is determined by its elements: rebuilding it from `Elements(l)` gives `l` back |
| `LinkedList.ElementsInjective` | main.rs:63-68 | two lists with the same elements are equal |
| `LinkedList.PrependAllOrder` | main.rs:79-82 | prepending a sequence of values one after the other leaves them in reverse order (most recent first) in front of the old elements, and adds one cell per value |
| `LinkedList.LinkEnumDemo` | main.rs:98-111 | starting from `new()` and prepending 1, 2, 3 gives `Cons(3, Cons(2, Cons(1, Nil)))`, whose elements are `[3, 2, 1]`, and the printed length is 3 |

## Left out

- `Person`, `inspect` and `enum_demo` (main.rs:12-54): their only effect is console output, and `main` does not call `enum_demo`.
- Console output (`println!` in `link_enum_demo` and `main`): `LinkEnumDemo` returns the length that would be printed instead of the text.
- `Box` allocation and Rust's move semantics: a datatype value is immutable, acyclic and unshared, so consuming the old list in `prepend` needs no model.
- Stack depth of the recursive `len`: recursion in the model has no depth limit, so a stack overflow on a very long list is not modelled.
- The commented-out `stringify` call (main.rs:109): it is not implemented in the source, so the model gives it no behaviour.
