/** The optional value used throughout the model, standing for Rust's `Option`. */
module Options {

  datatype Option<+T> = None | Some(value: T) {

    /** The wrapped value, or `default` when there is none. */
    function GetOr(default: T): T {
      match this
      case Some(v) => v
      case None => default
    }
  }

  /** The first success in `rs` from index `i` on. */
  function FirstSome<T>(rs: seq<Option<T>>, i: nat): Option<T>
    requires i <= |rs|
    decreases |rs| - i
  {
    if i == |rs| then None
    else if rs[i].Some? then rs[i]
    else FirstSome(rs, i + 1)
  }

  /** There is a first success iff there is any, and every entry before it failed. */
  lemma {:induction false} FirstSomeIsFirst<T>(rs: seq<Option<T>>, i: nat)
    requires i <= |rs|
    ensures FirstSome(rs, i).Some? <==> exists k :: i <= k < |rs| && rs[k].Some?
    ensures FirstSome(rs, i).Some? ==>
      exists k :: i <= k < |rs| && FirstSome(rs, i) == rs[k] && forall j :: i <= j < k ==> rs[j].None?
    decreases |rs| - i
  {
    if i < |rs| {
      if rs[i].Some? {
        assert FirstSome(rs, i) == rs[i];
      } else {
        assert FirstSome(rs, i) == FirstSome(rs, i + 1);
        FirstSomeIsFirst(rs, i + 1);
        if FirstSome(rs, i).Some? {
          var k :| i + 1 <= k < |rs| && FirstSome(rs, i + 1) == rs[k] && forall j :: i + 1 <= j < k ==> rs[j].None?;
          assert forall j :: i <= j < k ==> rs[j].None?;
        }
      }
    }
  }
}
