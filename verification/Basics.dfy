/** Value types shared by every module of the model. */
module Basics {

  /** A value that may be absent: a missing journal, a missing row, a lookup that found nothing. */
  datatype Option<+T> = None | Some(value: T) {
    predicate IsFailure() {
      None?
    }

    function PropagateFailure<U>(): Option<U>
      requires None?
    {
      None
    }

    function Extract(): T
      requires Some?
    {
      value
    }
  }

  /** What the system under the program answers to one call: it worked, it threw, or the process died first. */
  datatype Outcome = Done | Throws | Killed

  lemma {:induction false} SubsetIsNoLarger<T>(a: set<T>, b: set<T>)
    requires a <= b
    ensures |a| <= |b|
  {
    if a != {} {
      var x :| x in a;
      SubsetIsNoLarger(a - {x}, b - {x});
    }
  }
}
