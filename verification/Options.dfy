module Options {

  datatype Option<+T> = None | Some(value: T)

  /** How many entries are there. */
  function Present<T>(s: seq<Option<T>>): (n: nat)
    ensures n <= |s|
    ensures n == 0 <==> forall i :: 0 <= i < |s| ==> s[i].None?
  {
    if s == [] then 0 else Present(s[..|s| - 1]) + if s[|s| - 1].Some? then 1 else 0
  }

  /** Entries that are there at least where `at` says. */
  lemma {:induction false} PresentAtLeast<T>(s: seq<Option<T>>, at: set<nat>)
    requires forall i :: i in at ==> i < |s| && s[i].Some?
    ensures Present(s) >= |at|
  {
    if s == [] {
      assert at == {};
    } else {
      var last: nat := |s| - 1;
      PresentAtLeast(s[..last], at - {last});
    }
  }

  lemma {:induction false} PresentMonotone<T, U>(s: seq<Option<T>>, t: seq<Option<U>>)
    requires |s| == |t| && forall i :: 0 <= i < |s| && s[i].Some? ==> t[i].Some?
    ensures Present(s) <= Present(t)
  {
    if s != [] {
      PresentMonotone(s[..|s| - 1], t[..|t| - 1]);
    }
  }
}
