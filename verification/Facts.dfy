/** How contracts hand facts on. */
module Facts {

  /** The claim `b`, handed on as one fact: a contract that says `Whole(P(x))` says `P(x)`, but the
      verifier does not take it apart conjunct by conjunct at every call. */
  ghost predicate Whole(b: bool) {
    b == true
  }
}
