/** The intake and the worker together: what a notification published by the
    server does once a worker handles it. */
module Protocol {
  import opened GoInt
  import opened Strconv
  import opened Kernel
  import opened Stores
  import opened Server
  import opened Worker

  /** What the backends look like when only the server and workers write to
      them: every payload on the channel is the decimal spelling of an index
      of at most 40; every log row and every field of the hash is an index
      whose payload was published; and every field holds either the
      placeholder or the right term. */
  predicate Consistent(st: State)
  {
    && (forall p :: p in st.published ==>
          Atoi(p).Some? && p == Itoa(Atoi(p).value) && Atoi(p).value <= MaxIndex)
    && (forall i :: 0 <= i < |st.log| ==> Itoa(st.log[i]) in st.published)
    && (forall k :: k in st.table ==>
          Itoa(k) in st.published && (st.table[k] == Placeholder || st.table[k] == Computed(Fib(k))))
  }

  /** Freshly created backends are consistent. */
  lemma EmptyConsistent()
    ensures Consistent(State(map[], [], []))
  {
  }

  /** Every request, accepted or not, keeps the backends consistent. */
  lemma SubmitPreservesConsistent(st: State, req: Request)
    requires Consistent(st)
    ensures Consistent(AfterSubmit(st, Decide(req)))
  {
    match Decide(req)
    case Rejected(_) =>
    case Accepted(n) =>
      AtoiItoa(n);
      var st' := AfterSubmit(st, Accepted(n));
      assert st'.published == st.published + [Itoa(n)];
      assert st'.log == st.log + InsertedRows(n);
      forall i | 0 <= i < |st'.log|
        ensures Itoa(st'.log[i]) in st'.published
      {
        if i >= |st.log| {
          assert st'.log[i] == n;
        }
      }
  }

  /** Handling a payload that the server published keeps the backends
      consistent: the worker writes the true term, never an overflowed one. */
  lemma HandlePublishedPreservesConsistent(st: State, payload: string)
    requires Consistent(st) && payload in st.published
    ensures Consistent(AfterHandle(st, payload))
  {
    var n := Atoi(payload).value;
    NoOverflowUpTo40(n);
  }

  /** Submitting an index and then handling the payload it published leaves
      the true term in the hash for that index. */
  lemma SubmitThenHandle(st: State, req: Request, n: int)
    requires Decide(req) == Accepted(n)
    ensures var st1 := AfterSubmit(st, Accepted(n));
      && st1.published[|st1.published| - 1] == Itoa(n)
      && AfterHandle(st1, Itoa(n)).table[n] == Computed(Fib(n))
  {
    AtoiItoa(n);
    NoOverflowUpTo40(n);
  }

  /** The same index submitted twice gives two notifications (and two log
      rows when it fits the column); after both notifications are handled the
      hash holds the true term: the second computation overwrites the first
      with the same value. */
  lemma DuplicateSubmissionsConverge(st: State, req: Request, n: int)
    requires Decide(req) == Accepted(n)
    ensures var st2 := AfterSubmit(AfterSubmit(st, Accepted(n)), Accepted(n));
      && st2.published == st.published + [Itoa(n), Itoa(n)]
      && st2.log == (if ColumnMin <= n then st.log + [n, n] else st.log)
      && AfterHandle(AfterHandle(st2, Itoa(n)), Itoa(n)).table[n] == Computed(Fib(n))
  {
    AtoiItoa(n);
    NoOverflowUpTo40(n);
  }
}
