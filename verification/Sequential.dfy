/** The sequential worklist `pipeline` (analysis/src/pipeline.rs:134-200), and its agreement with
  the parallel `analyze`. */
module SequentialPipeline {
  import opened Il
  import opened Sets
  import opened Pipeline

  /** How often the Todo entries name `a`. */
  function Occurrences(todos: seq<Todo>, a: Addr): nat {
    if todos == [] then 0 else Occurrences(todos[..|todos| - 1], a) + if todos[|todos| - 1].entry == a then 1 else 0
  }

  /** How often `a` has been disassembled: once per Todo entry, any other address once. */
  ghost function Visits(inp: Input, done: seq<Todo>, finished: set<Addr>, a: Addr): nat {
    if IsRoot(inp, a) then Occurrences(done, a) else if a in finished then 1 else 0
  }

  /** The functions sent and the failures recorded so far are exactly the visits. */
  ghost predicate Accounted(inp: Input, done: seq<Todo>, finished: set<Addr>, sent: seq<Addr>, failures: seq<Addr>) {
    forall a ::
      && multiset(sent)[a] == (if inp.oracle(a).Ok? then Visits(inp, done, finished, a) else 0)
      && multiset(failures)[a] == (if inp.oracle(a).Fail? then Visits(inp, done, finished, a) else 0)
  }

  /** Calls of finished functions are finished or still listed. */
  ghost predicate Listed(inp: Input, finished: set<Addr>, listed: set<Addr>) {
    forall a, c :: a in finished && inp.oracle(a).Ok? && c in inp.oracle(a).calls ==> c in finished || c in listed
  }

  /** Nothing foreign has been taken up. */
  ghost predicate Needed(inp: Input, xs: set<Addr>) {
    forall ys :: HasRoots(inp, ys) && Closed(inp, ys) ==> xs <= ys
  }

  function Listing(v: seq<Addr>): set<Addr> {
    set a | a in v
  }

  lemma ListingAppend(v: seq<Addr>, w: seq<Addr>)
    ensures Listing(v + w) == Listing(v) + Listing(w)
  {
  }

  /** One call of `Function::new` or `with_uuid` and what becomes of its result. */
  method Disassemble(inp: Input, a: Addr, targets: seq<Addr>, sent: seq<Addr>, failures: seq<Addr>)
    returns (targets': seq<Addr>, sent': seq<Addr>, failures': seq<Addr>)
    ensures inp.oracle(a).Ok? ==>
              targets' == targets + inp.oracle(a).calls && sent' == sent + [a] && failures' == failures
    ensures inp.oracle(a).Fail? ==>
              targets' == targets && sent' == sent && failures' == failures + [a]
  {
    targets', sent', failures' := targets, sent, failures;
    match inp.oracle(a)
    case Ok(calls) =>
      targets' := targets + calls;
      sent' := sent + [a];
    case Fail =>
      failures' := failures + [a];
  }

  lemma AppendCount(v: seq<Addr>, a: Addr, b: Addr)
    ensures multiset(v + [a])[b] == multiset(v)[b] + if a == b then 1 else 0
  {
    assert multiset(v + [a]) == multiset(v) + multiset{a};
  }

  /** Taking up a Todo entry. */
  lemma VisitRoot(inp: Input, done: seq<Todo>, t: Todo, finished: set<Addr>,
                  sent: seq<Addr>, failures: seq<Addr>, sent': seq<Addr>, failures': seq<Addr>)
    requires Accounted(inp, done, finished, sent, failures) && t in inp.todos
    requires if inp.oracle(t.entry).Ok? then sent' == sent + [t.entry] && failures' == failures
             else sent' == sent && failures' == failures + [t.entry]
    ensures Accounted(inp, done + [t], finished + {t.entry}, sent', failures')
  {
    assert (done + [t])[..|done|] == done;
    assert IsRoot(inp, t.entry);
    forall a
      ensures multiset(sent + [t.entry])[a] == multiset(sent)[a] + if t.entry == a then 1 else 0
      ensures multiset(failures + [t.entry])[a] == multiset(failures)[a] + if t.entry == a then 1 else 0
    {
      AppendCount(sent, t.entry, a);
      AppendCount(failures, t.entry, a);
    }
  }

  /** Taking up an address that is not finished, and hence no Todo entry. */
  lemma VisitNew(inp: Input, finished: set<Addr>, b: Addr,
                 sent: seq<Addr>, failures: seq<Addr>, sent': seq<Addr>, failures': seq<Addr>)
    requires Accounted(inp, inp.todos, finished, sent, failures) && HasRoots(inp, finished) && b !in finished
    requires if inp.oracle(b).Ok? then sent' == sent + [b] && failures' == failures
             else sent' == sent && failures' == failures + [b]
    ensures Accounted(inp, inp.todos, finished + {b}, sent', failures')
  {
    assert !IsRoot(inp, b);
    forall a
      ensures multiset(sent + [b])[a] == multiset(sent)[a] + if b == a then 1 else 0
      ensures multiset(failures + [b])[a] == multiset(failures)[a] + if b == a then 1 else 0
    {
      AppendCount(sent, b, a);
      AppendCount(failures, b, a);
    }
  }

  lemma TakeUp(inp: Input, finished: set<Addr>, listed: set<Addr>, b: Addr, listed': set<Addr>)
    requires Listed(inp, finished, listed) && Needed(inp, finished + listed + {b})
    requires listed' == listed + if inp.oracle(b).Ok? then Listing(inp.oracle(b).calls) else {}
    ensures Listed(inp, finished + {b}, listed') && Needed(inp, finished + {b} + listed')
  {
    forall ys | HasRoots(inp, ys) && Closed(inp, ys) ensures finished + {b} + listed' <= ys {
      assert b in finished + listed + {b};
      if inp.oracle(b).Ok? {
        forall c | c in inp.oracle(b).calls ensures c in ys { }
      }
    }
  }

  /** The loop invariant of `pipeline`: `listed` are the targets still to be looked at. */
  ghost predicate Consistent(inp: Input, finished: set<Addr>, listed: set<Addr>, sent: seq<Addr>, failures: seq<Addr>) {
    && HasRoots(inp, finished)
    && Listed(inp, finished, listed)
    && Needed(inp, finished + listed)
    && Accounted(inp, inp.todos, finished, sent, failures)
  }

  lemma SkipKnown(inp: Input, finished: set<Addr>, listed: set<Addr>, b: Addr, sent: seq<Addr>, failures: seq<Addr>)
    requires Consistent(inp, finished, listed + {b}, sent, failures) && b in finished
    ensures Consistent(inp, finished, listed, sent, failures)
  {
    forall ys | HasRoots(inp, ys) && Closed(inp, ys) ensures finished + listed <= ys {
      assert finished + (listed + {b}) <= ys;
    }
  }

  lemma TakeNew(inp: Input, finished: set<Addr>, listed: set<Addr>, b: Addr, listed': set<Addr>,
                sent: seq<Addr>, failures: seq<Addr>, sent': seq<Addr>, failures': seq<Addr>)
    requires Consistent(inp, finished, listed + {b}, sent, failures) && b !in finished
    requires listed' == listed + if inp.oracle(b).Ok? then Listing(inp.oracle(b).calls) else {}
    requires if inp.oracle(b).Ok? then sent' == sent + [b] && failures' == failures
             else sent' == sent && failures' == failures + [b]
    ensures Consistent(inp, finished + {b}, listed', sent', failures')
  {
    VisitNew(inp, finished, b, sent, failures, sent', failures');
    var both := listed + {b};
    assert finished + both + {b} == finished + both;
    TakeUp(inp, finished, both, b, listed' + {b});
    assert Listed(inp, finished + {b}, listed');
    assert finished + {b} + (listed' + {b}) == finished + {b} + listed';
  }

  /** The same while the first `i` Todo entries are done. */
  ghost predicate ConsistentUpTo(inp: Input, i: nat, finished: set<Addr>, listed: set<Addr>,
                                 sent: seq<Addr>, failures: seq<Addr>)
    requires i <= |inp.todos|
  {
    && (forall k :: 0 <= k < i ==> inp.todos[k].entry in finished)
    && Listed(inp, finished, listed)
    && Needed(inp, finished + listed)
    && Accounted(inp, inp.todos[..i], finished, sent, failures)
  }

  /** The first loop: every Todo entry is disassembled, repeated ones again. */
  method Roots(inp: Input) returns (finished: set<Addr>, targets: seq<Addr>, sent: seq<Addr>, failures: seq<Addr>)
    ensures Consistent(inp, finished, Listing(targets), sent, failures)
  {
    finished, targets, sent, failures := {}, [], [], [];
    NothingDone(inp);
    for i := 0 to |inp.todos|
      invariant ConsistentUpTo(inp, i, finished, Listing(targets), sent, failures)
    {
      var a := inp.todos[i].entry;
      var targets', sent', failures' := Disassemble(inp, a, targets, sent, failures);
      if inp.oracle(a).Ok? { ListingAppend(targets, inp.oracle(a).calls); }
      TakeRoot(inp, i, finished, Listing(targets), Listing(targets'), sent, failures, sent', failures');
      finished := finished + {a};
      targets, sent, failures := targets', sent', failures';
    }
    assert inp.todos[..|inp.todos|] == inp.todos;
  }

  lemma NothingDone(inp: Input)
    ensures ConsistentUpTo(inp, 0, {}, Listing([]), [], [])
  {
    forall a ensures Visits(inp, inp.todos[..0], {}, a) == 0 { }
  }

  lemma TakeRoot(inp: Input, i: nat, finished: set<Addr>, listed: set<Addr>, listed': set<Addr>,
                 sent: seq<Addr>, failures: seq<Addr>, sent': seq<Addr>, failures': seq<Addr>)
    requires i < |inp.todos| && ConsistentUpTo(inp, i, finished, listed, sent, failures)
    requires var a := inp.todos[i].entry;
             && listed' == listed + (if inp.oracle(a).Ok? then Listing(inp.oracle(a).calls) else {})
             && if inp.oracle(a).Ok? then sent' == sent + [a] && failures' == failures
                else sent' == sent && failures' == failures + [a]
    ensures ConsistentUpTo(inp, i + 1, finished + {inp.todos[i].entry}, listed', sent', failures')
  {
    var t := inp.todos[i];
    assert inp.todos[..i + 1] == inp.todos[..i] + [t];
    VisitRoot(inp, inp.todos[..i], t, finished, sent, failures, sent', failures');
    assert Needed(inp, finished + listed + {t.entry});
    TakeUp(inp, finished, listed, t.entry, listed');
  }

  /** One round of the outer loop: drain `targets`, collect the next ones. */
  method Round(inp: Input, finished0: set<Addr>, targets: seq<Addr>, sent0: seq<Addr>, failures0: seq<Addr>)
    returns (finished: set<Addr>, next: seq<Addr>, sent: seq<Addr>, failures: seq<Addr>)
    requires Consistent(inp, finished0, Listing(targets), sent0, failures0)
    ensures Consistent(inp, finished, Listing(next), sent, failures)
    ensures finished0 <= finished && (finished == finished0 ==> next == [])
  {
    finished, next, sent, failures := finished0, [], sent0, failures0;
    assert Listing(targets[0..]) + Listing(next) == Listing(targets);
    for k := 0 to |targets|
      invariant finished0 <= finished && (finished == finished0 ==> next == [])
      invariant Consistent(inp, finished, Listing(targets[k..]) + Listing(next), sent, failures)
    {
      var b := targets[k];
      ghost var listed := Listing(targets[k + 1..]) + Listing(next);
      HeadListed(targets, k, next);
      if b !in finished {
        var next', sent', failures' := Disassemble(inp, b, next, sent, failures);
        if inp.oracle(b).Ok? { ListingAppend(next, inp.oracle(b).calls); }
        TakeNew(inp, finished, listed, b, Listing(targets[k + 1..]) + Listing(next'), sent, failures, sent', failures');
        finished := finished + {b};
        next, sent, failures := next', sent', failures';
      } else {
        SkipKnown(inp, finished, listed, b, sent, failures);
      }
    }
    assert Listing(targets[|targets|..]) + Listing(next) == Listing(next);
  }

  lemma HeadListed(targets: seq<Addr>, k: nat, next: seq<Addr>)
    requires k < |targets|
    ensures Listing(targets[k..]) + Listing(next) == Listing(targets[k + 1..]) + Listing(next) + {targets[k]}
  {
    assert targets[k..] == [targets[k]] + targets[k + 1..];
    ListingAppend([targets[k]], targets[k + 1..]);
  }

  lemma RemainingShrinks(finished0: set<Addr>, finished: set<Addr>)
    requires finished0 < finished
    ensures |AllAddrs() - finished| < |AllAddrs() - finished0|
  {
    var a :| a in finished && a !in finished0;
    assert IsAddr(a);
    var rest := AllAddrs() - finished0;
    assert AllAddrs() - finished <= rest - {a};
    SubsetCardinality(AllAddrs() - finished, rest - {a});
  }

  lemma NothingListed(inp: Input, finished: set<Addr>, sent: seq<Addr>, failures: seq<Addr>)
    requires Consistent(inp, finished, {}, sent, failures)
    ensures Discovered(inp, finished)
  {
    assert finished + {} == finished;
  }

  /** `pipeline`: terminates with the discovered addresses; functions that disassemble are sent,
    the others recorded as failures, each non-root address exactly once. */
  method RunPipeline(inp: Input) returns (finished: set<Addr>, sent: seq<Addr>, failures: seq<Addr>)
    ensures Discovered(inp, finished)
    ensures Accounted(inp, inp.todos, finished, sent, failures)
  {
    var targets;
    finished, targets, sent, failures := Roots(inp);
    while targets != []
      invariant Consistent(inp, finished, Listing(targets), sent, failures)
      decreases |AllAddrs() - finished|, targets != []
    {
      ghost var finished0 := finished;
      finished, targets, sent, failures := Round(inp, finished, targets, sent, failures);
      if finished != finished0 { RemainingShrinks(finished0, finished); }
    }
    assert Listing(targets) == {};
    NothingListed(inp, finished, sent, failures);
  }

  /** The parallel version refines the sequential one: whatever the interleaving, both attempt the
    same addresses, and the keys `analyze` publishes as Ok are the functions `pipeline` sends. */
  lemma AnalyzeRefinesPipeline(inp: Input, run: seq<State>, s: State,
                               finished: set<Addr>, sent: seq<Addr>, failures: seq<Addr>)
    requires Execution(inp, run) && s == run[|run| - 1] && Final(s)
    requires Discovered(inp, finished) && Accounted(inp, inp.todos, finished, sent, failures)
    ensures s.attempts.Keys == finished
    ensures forall a :: a in sent <==> a in s.attempts && s.attempts[a]
    ensures forall a :: a in failures <==> a in s.attempts && !s.attempts[a]
    ensures forall a :: !IsRoot(inp, a) ==> multiset(sent)[a] + multiset(failures)[a] <= 1
  {
    AnalyzeCorrect(inp, run, s);
    DiscoveredUnique(inp, s.attempts.Keys, finished);
    forall a ensures Visits(inp, inp.todos, finished, a) > 0 <==> a in finished { VisitsPositive(inp, finished, a); }
    forall a ensures (a in sent <==> multiset(sent)[a] > 0) && (a in failures <==> multiset(failures)[a] > 0) { }
  }

  lemma VisitsPositive(inp: Input, finished: set<Addr>, a: Addr)
    requires HasRoots(inp, finished)
    ensures Visits(inp, inp.todos, finished, a) > 0 <==> a in finished
  {
    if IsRoot(inp, a) {
      var i :| 0 <= i < |inp.todos| && inp.todos[i].entry == a;
      OccursAt(inp.todos, i);
    }
  }

  lemma {:induction false} OccursAt(todos: seq<Todo>, i: nat)
    requires i < |todos|
    ensures Occurrences(todos, todos[i].entry) > 0
  {
    if i < |todos| - 1 { OccursAt(todos[..|todos| - 1], i); }
  }
}
