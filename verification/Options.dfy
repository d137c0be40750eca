/** A value that may be missing, and what a loop has collected in front of what the rest will give. */
module Options {
  datatype Option<+T> = None | Some(value: T)

  ghost function After<T>(done: seq<T>, rest: Option<seq<T>>): Option<seq<T>> {
    match rest
    case None => None
    case Some(more) => Some(done + more)
  }

  lemma AfterNone<T>(rest: Option<seq<T>>)
    ensures After([], rest) == rest
  {
    match rest {
      case None =>
      case Some(more) => assert [] + more == more;
    }
  }

  lemma AfterMore<T>(done: seq<T>, next: seq<T>, rest: Option<seq<T>>)
    ensures After(done, After(next, rest)) == After(done + next, rest)
  {
    match rest {
      case None =>
      case Some(more) => assert done + (next + more) == done + next + more;
    }
  }

  lemma AfterAll<T>(done: seq<T>)
    ensures After(done, Some([])) == Some(done)
  {
    assert done + [] == done;
  }

  lemma AfterNothing<T>(done: seq<T>)
    ensures After(done, None) == None
  {
  }

  lemma AfterSome<T>(done: seq<T>, more: seq<T>)
    ensures After(done, Some(more)) == Some(done + more)
  {
  }
}
