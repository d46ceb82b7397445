/** Facts about finite sets shared by the other modules. */
module Sets {

  /** A non-empty set has an element to pick. */
  lemma Pick<T>(s: set<T>) returns (x: T)
    requires s != {}
    ensures x in s
  {
    if forall y :: y !in s {
      assert false;
    }
    x :| x in s;
  }
}
