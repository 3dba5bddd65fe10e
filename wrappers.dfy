/** The optional values of the model: `null`, an absent field, or a fetch that threw. */
module Wrappers {

  datatype Option<+T> = None | Some(value: T)

  function Min(a: int, b: int): int
  {
    if a <= b then a else b
  }

  /** `Math.max` on integers. */
  function Max(a: int, b: int): int
  {
    if a >= b then a else b
  }

  /** A subset is no larger than the set holding it. */
  lemma {:induction false} SubsetIsNotLarger<T>(a: set<T>, b: set<T>)
    requires a <= b
    ensures |a| <= |b|
  {
    if |a| > 0 {
      var x :| x in a;
      SubsetIsNotLarger(a - {x}, b - {x});
    }
  }

  /** The members of `s + [x]` are those of `s` and `x`. */
  lemma MembersOfSnoc<T>(s: seq<T>, x: T)
    ensures (set y | y in s + [x]) == (set y | y in s) + {x}
  {
  }

  /** Adding one element to each of two sets keeps the first no larger, unless only the second already had its element. */
  lemma AddingKeepsNotLarger<T, U>(a: set<T>, x: T, b: set<U>, y: U)
    requires |a| <= |b| && (y in b ==> x in a)
    ensures |a + {x}| <= |b + {y}|
  {
    if x in a {
      assert a + {x} == a;
    }
    if y in b {
      assert b + {y} == b;
    }
  }
}
