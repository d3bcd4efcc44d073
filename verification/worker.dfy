/** The worker's handler for one notification received on the `insert`
    channel (the body of the goroutine in worker/main.go). */
module Worker {
  import opened Strconv
  import opened Kernel
  import opened Stores

  /** The backends after one payload has been handled: a payload that parses
      to `n` sets field `n` of the hash to the worker's `fib(n)`; any other
      payload makes the handler give up before it writes anything. */
  function AfterHandle(st: State, payload: string): State
  {
    match Atoi(payload)
    case None => st
    case Some(n) => st.(table := st.table[n := Computed(Fib64(n))])
  }

  /** Parse the payload, compute, write the result back. */
  method Handle(b: Backends, payload: string)
    modifies b
    ensures b.Snapshot() == AfterHandle(old(b.Snapshot()), payload)
  {
    var parsed := Atoi(payload);
    if parsed.None? {
      return;
    }
    var index := parsed.value;
    var result := Fib64(index);
    b.HSet(index, Computed(result));
  }

  /** Handling touches one field only, the one its payload names, and never
      the channel or the log; a payload that does not parse changes nothing. */
  lemma HandleEffects(st: State, payload: string)
    ensures var st' := AfterHandle(st, payload);
      && st'.published == st.published && st'.log == st.log
      && (Atoi(payload).None? ==> st' == st)
      && (Atoi(payload).Some? ==>
            var n := Atoi(payload).value;
            && st'.table[n] == Computed(Fib64(n))
            && st'.table.Keys == st.table.Keys + {n}
            && forall k :: k in st.table && k != n ==> st'.table[k] == st.table[k])
  {
  }

  /** Handling the same payload a second time changes nothing more. */
  lemma HandleIdempotent(st: State, payload: string)
    ensures AfterHandle(AfterHandle(st, payload), payload) == AfterHandle(st, payload)
  {
    match Atoi(payload)
    case None =>
    case Some(n) =>
      var t := st.table[n := Computed(Fib64(n))];
      assert t[n := Computed(Fib64(n))] == t;
  }

  /** Two handlers may finish in either order: the backends end up the same,
      whether the payloads name different fields or the same one. */
  lemma HandlersCommute(st: State, p: string, q: string)
    ensures AfterHandle(AfterHandle(st, p), q) == AfterHandle(AfterHandle(st, q), p)
  {
    match (Atoi(p), Atoi(q))
    case (Some(m), Some(n)) =>
      var vm, vn := Computed(Fib64(m)), Computed(Fib64(n));
      assert st.table[m := vm][n := vn] == st.table[n := vn][m := vm];
    case _ =>
  }
}
