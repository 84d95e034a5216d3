/**
 * Properties of the handler that relate several questions, rows or tables:
 * how the answer section is assembled, which answers it holds, and what the
 * normalisation and the row order change.
 */
module ResponderProperties {
  import opened Wrappers
  import opened Dns
  import Names
  import IPv4
  import RecordStore
  import Seqs
  import opened Responder

  /**
   * The answer section of a query is the answer section of its first
   * questions followed by that of the rest: a question, whatever became of
   * its lookup, never affects what the later questions add, nor their order.
   */
  lemma AnswersAppend(t: Table, qs1: seq<Question>, qs2: seq<Question>, fetches: map<nat, Fetch>)
    ensures Answers(t, qs1 + qs2, fetches)
         == Answers(t, qs1, fetches) + Answers(t, qs2, Seqs.ShiftTags(fetches, |qs1|))
  {
    Seqs.MapTaggedAppend(qs1, qs2, fetches, RecordStore.Complete, ContributionIn(t));
    Seqs.FlattenAppend(Contributions(t, qs1, fetches), Contributions(t, qs2, Seqs.ShiftTags(fetches, |qs1|)));
  }

  /**
   * A query of one question: no answers when its lookup reports an error,
   * one per matching row when the read completes, and one per row read
   * before the interruption when it is cut short.
   */
  lemma SingleQuestion(t: Table, q: Question, fetches: map<nat, Fetch>)
    ensures FetchOf(fetches, 0).Failed? ==> Answers(t, [q], fetches) == []
    ensures FetchOf(fetches, 0).Complete? ==> Answers(t, [q], fetches) == Synthesize(q, Resolve(t, q))
    ensures FetchOf(fetches, 0).Cut? ==>
      Answers(t, [q], fetches) == Synthesize(q, RecordStore.FirstRows(Resolve(t, q), FetchOf(fetches, 0).read))
  {
    var cs := Contributions(t, [q], fetches);
    assert cs[..0] == [];
    assert Seqs.Flatten(cs) == Seqs.Flatten(cs[..0]) + cs[0];
  }

  /** An answer of a question comes from one of the rows given to it, and each row gives one. */
  lemma {:induction false} SynthesizeMembership(q: Question, recs: seq<Record>, rr: RR)
    ensures rr in Synthesize(q, recs) <==> Answerable(q.qtype) && exists rec :: rec in recs && rr == Entry(q, rec)
    decreases |recs|
  {
    if |recs| > 0 && Answerable(q.qtype) {
      SynthesizeMembership(q, recs[1..], rr);
      assert recs == [recs[0]] + recs[1..];
      if rr in Synthesize(q, recs[1..]) {
        var rec :| rec in recs[1..] && rr == Entry(q, rec);
        assert rec in recs;
      }
    }
  }

  /**
   * True when answer `rr` is what question `i` makes of row `rec`: the row
   * matches the question, the lookup reported no error, and, if its read
   * was cut short, the row was among those read.
   */
  predicate Explains(t: Table, qs: seq<Question>, fetches: map<nat, Fetch>, i: int, rec: Record, rr: RR) {
    && 0 <= i < |qs|
    && !FetchOf(fetches, i).Failed?
    && Answerable(qs[i].qtype)
    && rec in t.rows
    && rec.name == Names.TrimTrailingDots(qs[i].name)
    && rec.rtype == TypeToString(qs[i].qtype)
    && (FetchOf(fetches, i).Cut? ==> rec in RecordStore.FirstRows(Resolve(t, qs[i]), FetchOf(fetches, i).read))
    && rr == Entry(qs[i], rec)
  }

  /**
   * The answer section holds exactly the answers that some question whose
   * lookup reported no error makes of some row matching its normalised name
   * and type that the lookup read: nothing is invented, and nothing matching
   * is lost unless the read was cut short before it.
   */
  lemma AnswersExactly(t: Table, qs: seq<Question>, fetches: map<nat, Fetch>, rr: RR)
    ensures rr in Answers(t, qs, fetches) <==> exists i, rec :: Explains(t, qs, fetches, i, rec, rr)
  {
    var cs := Contributions(t, qs, fetches);
    Seqs.FlattenMembership(cs, rr);
    if rr in Answers(t, qs, fetches) {
      var i :| 0 <= i < |cs| && rr in cs[i];
      var rec := ExplainedBy(t, qs[i], FetchOf(fetches, i), rr);
      assert Explains(t, qs, fetches, i, rec, rr);
    }
    forall i, rec | Explains(t, qs, fetches, i, rec, rr)
      ensures rr in Answers(t, qs, fetches)
    {
      Explaining(t, qs[i], FetchOf(fetches, i), rec, rr);
      assert rr in cs[i];
    }
  }

  /** An answer a question contributes comes from a matching row its lookup read. */
  lemma ExplainedBy(t: Table, q: Question, fetch: Fetch, rr: RR) returns (rec: Record)
    requires rr in Contribution(t, q, fetch)
    ensures !fetch.Failed? && Answerable(q.qtype)
    ensures rec in Resolve(t, q) && rr == Entry(q, rec)
    ensures fetch.Cut? ==> rec in RecordStore.FirstRows(Resolve(t, q), fetch.read)
  {
    var looked := QueryFor(t, q, fetch);
    SynthesizeMembership(q, looked.value, rr);
    rec :| rec in looked.value && rr == Entry(q, rec);
  }

  /** A matching row that a successful lookup read gives its answer. */
  lemma Explaining(t: Table, q: Question, fetch: Fetch, rec: Record, rr: RR)
    requires !fetch.Failed? && Answerable(q.qtype)
    requires rec in Resolve(t, q) && rr == Entry(q, rec)
    requires fetch.Cut? ==> rec in RecordStore.FirstRows(Resolve(t, q), fetch.read)
    ensures rr in Contribution(t, q, fetch)
  {
    SynthesizeMembership(q, QueryFor(t, q, fetch).value, rr);
  }

  /** Questions of types other than A and TXT never add answers, whatever rows match. */
  lemma UnanswerableAddsNothing(t: Table, qs: seq<Question>, fetches: map<nat, Fetch>)
    requires forall i :: 0 <= i < |qs| ==> !Answerable(qs[i].qtype)
    ensures Answers(t, qs, fetches) == []
  {
    if |Answers(t, qs, fetches)| > 0 {
      var rr := Answers(t, qs, fetches)[0];
      AnswersExactly(t, qs, fetches, rr);
      assert false;
    }
  }

  /**
   * An A question yields an answer for every matching row its lookup read,
   * with the question's own name, and it keeps the answer even when the
   * value is not an address (then the address is absent).
   */
  lemma MalformedAddressKept(t: Table, qs: seq<Question>, fetches: map<nat, Fetch>, i: int, rec: Record)
    requires 0 <= i < |qs| && !FetchOf(fetches, i).Failed? && qs[i].qtype == TypeA
    requires rec in t.rows && rec.name == Names.TrimTrailingDots(qs[i].name) && rec.rtype == "A"
    requires FetchOf(fetches, i).Cut? ==> rec in RecordStore.FirstRows(Resolve(t, qs[i]), FetchOf(fetches, i).read)
    requires IPv4.Parse(rec.value) == None
    ensures A(Header(qs[i].name, TypeA, ClassINET, AnswerTtl), None) in Handle(t, qs, fetches).answers
  {
    assert Explains(t, qs, fetches, i, rec, A(Header(qs[i].name, TypeA, ClassINET, AnswerTtl), None));
    AnswersExactly(t, qs, fetches, A(Header(qs[i].name, TypeA, ClassINET, AnswerTtl), None));
  }

  /**
   * Trailing dots on the queried name select the same rows as the bare
   * name; only the owner name of the answers differs.
   */
  lemma TrailingDotsSelectSameRows(t: Table, name: string, dots: string, qtype: uint16, qclass: uint16)
    requires Names.AllDots(dots)
    ensures Resolve(t, Question(name + dots, qtype, qclass)) == Resolve(t, Question(name, qtype, qclass))
  {
    Names.TrimIgnoresAppendedDots(name, dots);
  }

  /**
   * A read cut short after `n` rows answers with the first answers of the
   * complete read, one per row read: the answers of the unread rows are
   * missing, and no error tells the client so.
   */
  lemma CutAnswersArePrefix(t: Table, q: Question, n: nat)
    ensures Contribution(t, q, RecordStore.Cut(n)) <= Contribution(t, q, RecordStore.Complete)
    ensures Answerable(q.qtype) ==>
      |Contribution(t, q, RecordStore.Cut(n))| == if n < |Resolve(t, q)| then n else |Resolve(t, q)|
  {
  }

  /**
   * With the `rows.Err()` check in place, every question adds all of its
   * answers or none: the answers of a lookup that completes, and nothing
   * for one that fails or is cut short.
   */
  lemma CheckedLookupAllOrNothing(t: Table, q: Question, fetch: Fetch)
    ensures Respond(q, RecordStore.QueryChecked(t.rows, Names.TrimTrailingDots(q.name), TypeToString(q.qtype), fetch))
         == if fetch.Complete? then Synthesize(q, Resolve(t, q)) else []
  {
  }

  /** The lookup over rows with a block `[x, y]` in the middle, in four pieces. */
  lemma LookupPieces(a: seq<Record>, x: Record, y: Record, b: seq<Record>, name: string, rtype: string)
    ensures RecordStore.Lookup(a + [x, y] + b, name, rtype)
         == RecordStore.Lookup(a, name, rtype) + RecordStore.Lookup([x], name, rtype)
          + RecordStore.Lookup([y], name, rtype) + RecordStore.Lookup(b, name, rtype)
  {
    assert a + [x, y] + b == ((a + [x]) + [y]) + b;
    RecordStore.LookupAppend((a + [x]) + [y], b, name, rtype);
    RecordStore.LookupAppend(a + [x], [y], name, rtype);
    RecordStore.LookupAppend(a, [x], name, rtype);
  }

  /** Synthesis of four pieces, with the middle two swapped, gives the same answers. */
  lemma SynthesizeSwap(q: Question, la: seq<Record>, lx: seq<Record>, ly: seq<Record>, lb: seq<Record>)
    ensures multiset(Synthesize(q, la + lx + ly + lb)) == multiset(Synthesize(q, la + ly + lx + lb))
  {
    SynthesizeAppend(q, la + lx + ly, lb);
    SynthesizeAppend(q, la + lx, ly);
    SynthesizeAppend(q, la, lx);
    SynthesizeAppend(q, la + ly + lx, lb);
    SynthesizeAppend(q, la + ly, lx);
    SynthesizeAppend(q, la, ly);
  }

  /**
   * Swapping two neighbouring rows of the table reorders a question's
   * answers but leaves the same answers, counted with multiplicity.
   */
  lemma SwapRowsSameAnswers(a: seq<Record>, x: Record, y: Record, b: seq<Record>, lastId: nat, q: Question)
    ensures multiset(Synthesize(q, Resolve(RecordStore.Table(a + [x, y] + b, lastId), q)))
         == multiset(Synthesize(q, Resolve(RecordStore.Table(a + [y, x] + b, lastId), q)))
  {
    var name, rtype := Names.TrimTrailingDots(q.name), TypeToString(q.qtype);
    LookupPieces(a, x, y, b, name, rtype);
    LookupPieces(a, y, x, b, name, rtype);
    SynthesizeSwap(q, RecordStore.Lookup(a, name, rtype), RecordStore.Lookup([x], name, rtype),
                   RecordStore.Lookup([y], name, rtype), RecordStore.Lookup(b, name, rtype));
  }

  /**
   * The same, lifted to a whole query whose reads all run to the end or
   * fail: which rows an interrupted read returns depends on the row order.
   */
  lemma SwapRowsSameReply(a: seq<Record>, x: Record, y: Record, b: seq<Record>, lastId: nat,
                          qs: seq<Question>, fetches: map<nat, Fetch>)
    requires forall i :: i in fetches ==> !fetches[i].Cut?
    ensures multiset(Answers(RecordStore.Table(a + [x, y] + b, lastId), qs, fetches))
         == multiset(Answers(RecordStore.Table(a + [y, x] + b, lastId), qs, fetches))
  {
    var t1, t2 := RecordStore.Table(a + [x, y] + b, lastId), RecordStore.Table(a + [y, x] + b, lastId);
    var cs1, cs2 := Contributions(t1, qs, fetches), Contributions(t2, qs, fetches);
    forall i | 0 <= i < |qs|
      ensures multiset(cs1[i]) == multiset(cs2[i])
    {
      if FetchOf(fetches, i).Complete? {
        SwapRowsSameAnswers(a, x, y, b, lastId, qs[i]);
      }
    }
    FlattenSameMultiset(cs1, cs2);
  }

  /** Flattening parts that agree as multisets gives flattenings that agree as multisets. */
  lemma {:induction false} FlattenSameMultiset(p1: seq<seq<RR>>, p2: seq<seq<RR>>)
    requires |p1| == |p2|
    requires forall i :: 0 <= i < |p1| ==> multiset(p1[i]) == multiset(p2[i])
    ensures multiset(Seqs.Flatten(p1)) == multiset(Seqs.Flatten(p2))
    decreases |p1|
  {
    if |p1| > 0 {
      var n := |p1| - 1;
      FlattenSameMultiset(p1[..n], p2[..n]);
      assert multiset(p1[n]) == multiset(p2[n]);
    }
  }
}
