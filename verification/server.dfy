/** The server's job intake (`submitFibIndexHandler`) and its listing of the
    durable log (`fetchPostgresDataHandler`). */
module Server {
  import opened GoInt
  import opened Strconv
  import opened Stores

  /** The highest index the server accepts. */
  const MaxIndex: int := 40

  /** An HTTP request to the intake endpoint, reduced to its method and the
      `index` field of its JSON body. */
  datatype Request = Request(verb: string, index: string)

  datatype Reason = NotPost | InvalidIndex | IndexTooHigh

  datatype Outcome = Accepted(n: int) | Rejected(reason: Reason)

  /** What the handler decides for a request before touching any backend. */
  function Decide(req: Request): Outcome
  {
    if req.verb != "POST" then Rejected(NotPost)
    else match Atoi(req.index)
      case None => Rejected(InvalidIndex)
      case Some(n) => if n > MaxIndex then Rejected(IndexTooHigh) else Accepted(n)
  }

  /** The backends after the handler has acted on its decision: an accepted
      index gets a placeholder, a notification and, when it fits the column,
      a log row. */
  function AfterSubmit(st: State, o: Outcome): State
  {
    match o
    case Rejected(_) => st
    case Accepted(n) => State(st.table[n := Placeholder], st.published + [Itoa(n)], st.log + InsertedRows(n))
  }

  /** The POST branch of the handler, with its method switch. */
  method Submit(b: Backends, req: Request) returns (o: Outcome)
    modifies b
    ensures o == Decide(req)
    ensures b.Snapshot() == AfterSubmit(old(b.Snapshot()), o)
  {
    if req.verb != "POST" {
      return Rejected(NotPost);
    }
    var parsed := Atoi(req.index);
    if parsed.None? {
      return Rejected(InvalidIndex);
    }
    var n := parsed.value;
    if n > MaxIndex {
      return Rejected(IndexTooHigh);
    }
    b.HSet(n, Placeholder);
    b.Publish(Itoa(n));
    b.Insert(n);
    return Accepted(n);
  }

  /** The only check on the value is the upper bound: a POST whose index
      parses is accepted exactly when it is at most 40, negative indices
      included. */
  lemma AcceptsExactly(req: Request, n: int)
    requires req.verb == "POST" && Atoi(req.index) == Some(n)
    ensures Decide(req) == if n <= MaxIndex then Accepted(n) else Rejected(IndexTooHigh)
    ensures n < 0 ==> Decide(req).Accepted?
  {
  }

  /** An index that does not parse, a request that is not a POST, and an index
      above 40 are all turned away, and none of the backends changes. */
  lemma RejectionHasNoEffect(st: State, req: Request)
    requires req.verb != "POST" || Atoi(req.index).None? || Atoi(req.index).value > MaxIndex
    ensures Decide(req).Rejected?
    ensures Decide(req).reason == (if req.verb != "POST" then NotPost
                                   else if Atoi(req.index).None? then InvalidIndex
                                   else IndexTooHigh)
    ensures AfterSubmit(st, Decide(req)) == st
  {
  }

  /** An accepted index `n` sets field `n` to the placeholder and leaves every
      other field alone, and appends one payload that reads back as `n` to the
      channel. It appends one row `n` to the log unless `n` is below the
      column's 32-bit range: that `INSERT` fails after the `HSET` and the
      `PUBLISH` have already happened, and the log stays as it was. */
  lemma AcceptanceEffects(st: State, req: Request, n: int)
    requires Decide(req) == Accepted(n)
    ensures var st' := AfterSubmit(st, Accepted(n));
      && st'.table[n] == Placeholder
      && st'.table.Keys == st.table.Keys + {n}
      && (forall k :: k in st.table && k != n ==> st'.table[k] == st.table[k])
      && |st'.published| == |st.published| + 1
      && st'.published[..|st.published|] == st.published
      && Atoi(st'.published[|st.published|]) == Some(n)
      && st'.log == (if ColumnMin <= n then st.log + [n] else st.log)
  {
    AtoiItoa(n);
    var st' := AfterSubmit(st, Accepted(n));
    assert st'.published[..|st.published|] == st.published;
  }

  /** An index below the column's range (such as -3000000000) passes the
      only bound, so it gets its placeholder and its notification, but no
      log row. */
  lemma AcceptedButNotLogged(st: State, n: int)
    requires MinInt <= n < ColumnMin
    ensures Decide(Request("POST", Itoa(n))) == Accepted(n)
    ensures AfterSubmit(st, Accepted(n)).table[n] == Placeholder
    ensures |AfterSubmit(st, Accepted(n)).published| == |st.published| + 1
    ensures AfterSubmit(st, Accepted(n)).log == st.log
  {
    AtoiItoa(n);
  }

  /** The decisions for a sequence of requests, in order. */
  function Decisions(reqs: seq<Request>): seq<Outcome>
  {
    seq(|reqs|, i requires 0 <= i < |reqs| => Decide(reqs[i]))
  }

  /** The indices a sequence of decisions accepts, in order. */
  function AcceptedIndices(os: seq<Outcome>): seq<int>
    decreases os
  {
    if os == [] then [] else (if os[0].Accepted? then [os[0].n] else []) + AcceptedIndices(os[1..])
  }

  /** The accepted indices whose `INSERT` succeeds, in order. */
  function LoggedIndices(os: seq<Outcome>): seq<int>
    decreases os
  {
    if os == [] then [] else (if os[0].Accepted? then InsertedRows(os[0].n) else []) + LoggedIndices(os[1..])
  }

  /** The backends after the handler has carried out the decisions one after another. */
  function AfterAll(st: State, os: seq<Outcome>): State
    decreases os
  {
    if os == [] then st else AfterAll(AfterSubmit(st, os[0]), os[1..])
  }

  /** A sequence of requests appends to the log the accepted indices that fit
      its column, in submission order. (The handlers of the worker never
      touch the log, see `Worker.HandleEffects`.) */
  lemma {:induction false} LogRecordsAcceptedRequests(st: State, os: seq<Outcome>)
    ensures AfterAll(st, os).log == st.log + LoggedIndices(os)
    decreases os
  {
    if os != [] {
      var st1 := AfterSubmit(st, os[0]);
      LogRecordsAcceptedRequests(st1, os[1..]);
      assert st1.log == st.log + (if os[0].Accepted? then InsertedRows(os[0].n) else []);
    }
  }

  /** The payloads published for a sequence of decisions: the spelling of
      each accepted index, in order. */
  function PublishedPayloads(os: seq<Outcome>): seq<string>
    decreases os
  {
    if os == [] then [] else (if os[0].Accepted? then [Itoa(os[0].n)] else []) + PublishedPayloads(os[1..])
  }

  /** A sequence of requests publishes the spelling of every accepted index,
      in submission order, one payload per accepted request. */
  lemma {:induction false} ChannelCarriesAcceptedRequests(st: State, os: seq<Outcome>)
    ensures AfterAll(st, os).published == st.published + PublishedPayloads(os)
    ensures |PublishedPayloads(os)| == |AcceptedIndices(os)|
    decreases os
  {
    if os != [] {
      var st1 := AfterSubmit(st, os[0]);
      ChannelCarriesAcceptedRequests(st1, os[1..]);
      assert st1.published == st.published + (if os[0].Accepted? then [Itoa(os[0].n)] else []);
    }
  }

  /** When every accepted index fits the column (any that is not negative
      does), N accepted requests add exactly N rows to the log. */
  lemma LogCountsAcceptedRequests(st: State, reqs: seq<Request>)
    requires forall i :: 0 <= i < |reqs| && Decide(reqs[i]).Accepted? ==> ColumnMin <= Decide(reqs[i]).n
    ensures |AfterAll(st, Decisions(reqs)).log| == |st.log| + |AcceptedIndices(Decisions(reqs))|
  {
    var os := Decisions(reqs);
    LogRecordsAcceptedRequests(st, os);
    AllAcceptedLogged(os);
  }

  /** Decisions whose accepted indices all fit the column log every one of them. */
  lemma {:induction false} AllAcceptedLogged(os: seq<Outcome>)
    requires forall i :: 0 <= i < |os| && os[i].Accepted? ==> FitsColumn(os[i].n)
    ensures LoggedIndices(os) == AcceptedIndices(os)
    decreases os
  {
    if os != [] {
      AllAcceptedLogged(os[1..]);
    }
  }

  /** The listing handler: it copies the rows of the log, one by one, into a
      new list, which therefore is the log in stored order. */
  method FetchAll(b: Backends) returns (rows: seq<int>)
    ensures rows == b.log
  {
    rows := [];
    var i := 0;
    while i < |b.log|
      invariant 0 <= i <= |b.log|
      invariant rows == b.log[..i]
    {
      rows := rows + [b.log[i]];
      i := i + 1;
    }
    assert b.log[..i] == b.log;
  }
}
