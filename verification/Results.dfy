/** Shared vocabulary: optional values, results with an error, and the transaction fold that both credential
    reconcilers use. */
module Results {
  datatype Option<+T> = None | Some(value: T)

  datatype Result<+T, +E> = Ok(value: T) | Err(error: E)

  /** The actions of earlier calls in front of those of the rest of a run. */
  ghost function Prepend<S, A, E>(actions: seq<A>, run: (S, Result<seq<A>, E>)): (S, Result<seq<A>, E>) {
    if run.1.Err? then run else (run.0, Ok(actions + run.1.value))
  }

  lemma PrependNothing<S, A, E>(run: (S, Result<seq<A>, E>))
    ensures Prepend([], run) == run
  {
    if run.1.Ok? {
      assert [] + run.1.value == run.1.value;
    }
  }

  lemma PrependAssociates<S, A, E>(actions: seq<A>, next: A, run: (S, Result<seq<A>, E>))
    ensures Prepend(actions, Prepend([next], run)) == Prepend(actions + [next], run)
  {
    if run.1.Ok? {
      assert actions + ([next] + run.1.value) == actions + [next] + run.1.value;
    }
  }
}
