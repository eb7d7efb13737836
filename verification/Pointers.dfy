/** Pointers and sequences of objects, for the linked structures of all components. */
module Pointers {

  /** The null pointer, where pointers are integers. */
  const NULL := 0

  /** The object at position `i` of a linked list, or null past its end. */
  ghost function At(list: seq<object>, i: nat): object? {
    if i < |list| then list[i] else null
  }

  ghost function Elements(s: seq<object>): set<object> {
    set o | o in s
  }

  ghost predicate NoDuplicates(s: seq<object>) {
    forall i, j :: 0 <= i < j < |s| ==> s[i] != s[j]
  }

  lemma {:induction false} ElementsAreCounted(s: seq<object>)
    requires NoDuplicates(s)
    ensures |Elements(s)| == |s|
  {
    if s != [] {
      var init, last := s[..|s| - 1], s[|s| - 1];
      ElementsAreCounted(init);
      assert Elements(s) == Elements(init) + {last};
    }
  }
}
