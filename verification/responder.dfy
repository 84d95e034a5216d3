/**
 * `handleDNSRequest` (basic-auth-dns/main.go:114-160): answer every question
 * of an inbound query from the record table.
 *
 * For each question, in order, the handler strips the trailing dots of the
 * queried name, looks up the rows whose name and type match, and turns each
 * row into one answer: an A record (address parsed from the row's value) for
 * type A, a TXT record (the value as its single string) for type TXT, and
 * nothing for any other type. Every answer carries the question's original
 * name, class IN and a time-to-live of 3600. The reply is always marked
 * authoritative.
 *
 * The database is reached through an explicit table value, which the handler
 * only reads. How each question's lookup ends is an input: `fetches` maps a
 * question's position to its `Fetch`, and a position it does not map reads
 * every row without error. A lookup that reports an error contributes no
 * answers; one whose read was cut short answers from the rows read so far.
 */
module Responder {
  import opened Wrappers
  import opened Dns
  import Names
  import IPv4
  import RecordStore
  import Seqs

  type Record = RecordStore.Record
  type Table = RecordStore.Table
  type Fetch = RecordStore.Fetch
  type LookupResult = Result<seq<Record>, RecordStore.LookupError>

  /** How question `i`'s lookup ends; complete unless `fetches` says otherwise. */
  function FetchOf(fetches: map<nat, Fetch>, i: nat): (f: Fetch)
    ensures i !in fetches ==> f == RecordStore.Complete
  {
    Seqs.Tag(fetches, RecordStore.Complete, i)
  }

  /** True for the question types the handler answers. */
  predicate Answerable(qtype: uint16) {
    qtype == TypeA || qtype == TypeTXT
  }

  /** The header of every answer to `q`. */
  function AnswerHeader(q: Question, rrtype: uint16): (hdr: Header) {
    Header(q.name, rrtype, ClassINET, AnswerTtl)
  }

  /** The rows a question selects: normalised name, mnemonic of its type. */
  function Resolve(t: Table, q: Question): (recs: seq<Record>)
    ensures forall rec :: rec in recs <==>
      rec in t.rows && rec.name == Names.TrimTrailingDots(q.name) && rec.rtype == TypeToString(q.qtype)
  {
    RecordStore.Lookup(t.rows, Names.TrimTrailingDots(q.name), TypeToString(q.qtype))
  }

  /** The answer one row yields for an answerable question. */
  function Entry(q: Question, rec: Record): (rr: RR)
    requires Answerable(q.qtype)
    ensures rr.hdr.name == q.name && rr.hdr.rrtype == q.qtype
    ensures rr.hdr.rrclass == ClassINET && rr.hdr.ttl == AnswerTtl
    ensures rr.A? <==> q.qtype == TypeA
    ensures rr.A? ==> rr.addr == IPv4.Parse(rec.value)
    ensures rr.TXT? ==> rr.txt == [rec.value]
  {
    if q.qtype == TypeA then A(AnswerHeader(q, TypeA), IPv4.Parse(rec.value))
    else TXT(AnswerHeader(q, TypeTXT), [rec.value])
  }

  /**
   * The `switch q.Qtype` over the looked-up rows: one answer per row, in row
   * order, for A and TXT; none for other types. An A answer is produced even
   * when the value is not an address.
   */
  function Synthesize(q: Question, recs: seq<Record>): (rrs: seq<RR>)
    ensures !Answerable(q.qtype) ==> rrs == []
    ensures Answerable(q.qtype) ==> |rrs| == |recs|
    ensures q.qtype == TypeA ==> forall i :: 0 <= i < |rrs| ==>
      rrs[i].A? && rrs[i].hdr == AnswerHeader(q, TypeA) && rrs[i].addr == IPv4.Parse(recs[i].value)
    ensures q.qtype == TypeTXT ==> forall i :: 0 <= i < |rrs| ==>
      rrs[i].TXT? && rrs[i].hdr == AnswerHeader(q, TypeTXT) && rrs[i].txt == [recs[i].value]
    decreases |recs|
  {
    if |recs| == 0 || !Answerable(q.qtype) then []
    else [Entry(q, recs[0])] + Synthesize(q, recs[1..])
  }

  /** The `queryDNS` call the handler makes for `q` (basic-auth-dns/main.go:123-127). */
  function QueryFor(t: Table, q: Question, fetch: Fetch): (r: LookupResult)
    ensures r.Success? ==> r.value <= Resolve(t, q)
  {
    RecordStore.Query(t.rows, Names.TrimTrailingDots(q.name), TypeToString(q.qtype), fetch)
  }

  /** What a question adds, given what its lookup returned: nothing on an error. */
  function Respond(q: Question, looked: LookupResult): (rrs: seq<RR>)
  {
    match looked
    case Failure(_) => []
    case Success(recs) => Synthesize(q, recs)
  }

  /**
   * What question `q` adds to the answer section: nothing when its lookup
   * reports an error, all its answers when the read completes, and the
   * leading part of them when the read is cut short.
   */
  function Contribution(t: Table, q: Question, fetch: Fetch): (rrs: seq<RR>)
    ensures fetch.Failed? ==> rrs == []
    ensures fetch.Complete? ==> rrs == Synthesize(q, Resolve(t, q))
    ensures rrs <= Synthesize(q, Resolve(t, q))
  {
    var looked := QueryFor(t, q, fetch);
    if looked.Success? then
      SynthesizeAppend(q, looked.value, Resolve(t, q)[|looked.value|..]);
      assert looked.value + Resolve(t, q)[|looked.value|..] == Resolve(t, q);
      Respond(q, looked)
    else
      Respond(q, looked)
  }

  /** `Contribution` against table `t`, as a function of the question and its fetch. */
  function ContributionIn(t: Table): (f: (Question, Fetch) -> seq<RR>)
    ensures forall q, fetch :: f(q, fetch) == Contribution(t, q, fetch)
  {
    (q: Question, fetch: Fetch) => Contribution(t, q, fetch)
  }

  /** What each question adds to the answer section, question by question. */
  function Contributions(t: Table, qs: seq<Question>, fetches: map<nat, Fetch>): (cs: seq<seq<RR>>)
    ensures |cs| == |qs|
    ensures forall i :: 0 <= i < |qs| ==> cs[i] == Contribution(t, qs[i], FetchOf(fetches, i))
  {
    Seqs.MapTagged(qs, fetches, RecordStore.Complete, ContributionIn(t))
  }

  /**
   * The answer section: the questions' contributions, concatenated in
   * question order. Every answer carries class IN, the fixed time-to-live,
   * and the name and type of a question that was asked.
   */
  function Answers(t: Table, qs: seq<Question>, fetches: map<nat, Fetch>): (rrs: seq<RR>)
    ensures forall k :: 0 <= k < |rrs| ==> rrs[k].hdr.rrclass == ClassINET && rrs[k].hdr.ttl == AnswerTtl
    ensures forall k :: 0 <= k < |rrs| ==>
      exists i :: 0 <= i < |qs| && rrs[k].hdr.name == qs[i].name && rrs[k].hdr.rrtype == qs[i].qtype
  {
    ContributionsHeaders(t, qs, fetches);
    Seqs.Flatten(Contributions(t, qs, fetches))
  }

  /** The reply to a query: authoritative, with the assembled answer section. */
  function Handle(t: Table, qs: seq<Question>, fetches: map<nat, Fetch>): (reply: Reply)
    ensures reply.authoritative
    ensures forall k :: 0 <= k < |reply.answers| ==>
      reply.answers[k].hdr.rrclass == ClassINET && reply.answers[k].hdr.ttl == AnswerTtl
  {
    Reply(true, Answers(t, qs, fetches))
  }

  /**
   * The handler as written: a loop over the questions appending each
   * question's answers to the reply; a question whose lookup failed is
   * skipped and the loop goes on.
   */
  method HandleDNSRequest(t: Table, qs: seq<Question>, fetches: map<nat, Fetch>) returns (reply: Reply)
    ensures reply.authoritative
    ensures reply.answers == Answers(t, qs, fetches)
  {
    var answers: seq<RR> := [];
    var i := 0;
    while i < |qs|
      invariant 0 <= i <= |qs|
      invariant answers == Answers(t, qs[..i], fetches)
    {
      ContributionsSnoc(t, qs, i, fetches);
      answers := AnswerQuestion(t, answers, qs[i], FetchOf(fetches, i));
      i := i + 1;
    }
    assert qs[..i] == qs;
    reply := Reply(true, answers);
  }

  /**
   * One pass of the question loop: look the question up and, unless the
   * lookup reports an error, append an answer per returned row.
   */
  method AnswerQuestion(t: Table, answers: seq<RR>, q: Question, fetch: Fetch) returns (out: seq<RR>)
    ensures out == answers + Contribution(t, q, fetch)
  {
    var domainName := Names.TrimTrailingDots(q.name);
    var looked := RecordStore.Query(t.rows, domainName, TypeToString(q.qtype), fetch);
    ContributionResponds(t, q, fetch);
    out := answers;
    if looked.Success? {
      out := AppendAnswers(answers, q, looked.value);
    }
  }

  /** The inner loop: one answer per looked-up row, for A and TXT only. */
  method AppendAnswers(answers: seq<RR>, q: Question, records: seq<Record>) returns (out: seq<RR>)
    ensures out == answers + Synthesize(q, records)
  {
    out := answers;
    var j := 0;
    while j < |records|
      invariant 0 <= j <= |records|
      invariant out == answers + Synthesize(q, records[..j])
    {
      var record := records[j];
      var added: seq<RR> := [];
      if q.qtype == TypeA {
        added := [A(AnswerHeader(q, TypeA), IPv4.Parse(record.value))];
      } else if q.qtype == TypeTXT {
        added := [TXT(AnswerHeader(q, TypeTXT), [record.value])];
      }
      AppendStep(answers, q, records, j, added);
      out := out + added;
      j := j + 1;
    }
    assert records[..j] == records;
  }

  /** One pass of the inner loop extends the answers by the next row's answer. */
  lemma AppendStep(answers: seq<RR>, q: Question, records: seq<Record>, j: int, added: seq<RR>)
    requires 0 <= j < |records|
    requires added == if Answerable(q.qtype) then [Entry(q, records[j])] else []
    ensures answers + Synthesize(q, records[..j]) + added == answers + Synthesize(q, records[..j + 1])
  {
    SynthesizeSnoc(q, records[..j], records[j]);
    assert records[..j + 1] == records[..j] + [records[j]];
  }

  /** Synthesising one more row appends that row's answer, if any. */
  lemma {:induction false} SynthesizeSnoc(q: Question, recs: seq<Record>, rec: Record)
    ensures Synthesize(q, recs + [rec]) ==
      Synthesize(q, recs) + (if Answerable(q.qtype) then [Entry(q, rec)] else [])
    decreases |recs|
  {
    if |recs| > 0 && Answerable(q.qtype) {
      assert (recs + [rec])[1..] == recs[1..] + [rec];
      SynthesizeSnoc(q, recs[1..], rec);
    }
  }

  /** Synthesis distributes over concatenated row sequences. */
  lemma {:induction false} SynthesizeAppend(q: Question, a: seq<Record>, b: seq<Record>)
    ensures Synthesize(q, a + b) == Synthesize(q, a) + Synthesize(q, b)
    decreases |a|
  {
    if |a| > 0 && Answerable(q.qtype) {
      assert (a + b)[1..] == a[1..] + b;
      SynthesizeAppend(q, a[1..], b);
    } else if |a| == 0 {
      assert a + b == b;
    }
  }

  /** A question's contribution is the handler's response to its lookup. */
  lemma ContributionResponds(t: Table, q: Question, fetch: Fetch)
    ensures Contribution(t, q, fetch) == Respond(q, QueryFor(t, q, fetch))
  {
  }

  /** Handling question `i` appends its contribution to those of the questions before it. */
  lemma ContributionsSnoc(t: Table, qs: seq<Question>, i: int, fetches: map<nat, Fetch>)
    requires 0 <= i < |qs|
    ensures Answers(t, qs[..i + 1], fetches) == Answers(t, qs[..i], fetches) + Contribution(t, qs[i], FetchOf(fetches, i))
  {
    Seqs.MapTaggedPrefix(qs[..i + 1], i, fetches, RecordStore.Complete, ContributionIn(t));
    assert qs[..i + 1][..i] == qs[..i];
  }

  /** An answer a question contributes has class IN, the fixed time-to-live, and the question's name and type. */
  lemma ContributionHeader(t: Table, q: Question, fetch: Fetch, rr: RR)
    requires rr in Contribution(t, q, fetch)
    ensures rr.hdr.rrclass == ClassINET && rr.hdr.ttl == AnswerTtl
    ensures rr.hdr.name == q.name && rr.hdr.rrtype == q.qtype
  {
    var full := Synthesize(q, Resolve(t, q));
    var j :| 0 <= j < |Contribution(t, q, fetch)| && Contribution(t, q, fetch)[j] == rr;
    assert rr == full[j];
  }

  /** The headers of the contributions: class IN, fixed time-to-live, a question's name and type. */
  lemma ContributionsHeaders(t: Table, qs: seq<Question>, fetches: map<nat, Fetch>)
    ensures forall k :: 0 <= k < |Seqs.Flatten(Contributions(t, qs, fetches))| ==>
      var rr := Seqs.Flatten(Contributions(t, qs, fetches))[k];
      && rr.hdr.rrclass == ClassINET && rr.hdr.ttl == AnswerTtl
      && exists i :: 0 <= i < |qs| && rr.hdr.name == qs[i].name && rr.hdr.rrtype == qs[i].qtype
  {
    var cs := Contributions(t, qs, fetches);
    var flat := Seqs.Flatten(cs);
    forall k | 0 <= k < |flat|
      ensures flat[k].hdr.rrclass == ClassINET && flat[k].hdr.ttl == AnswerTtl
      ensures exists i :: 0 <= i < |qs| && flat[k].hdr.name == qs[i].name && flat[k].hdr.rrtype == qs[i].qtype
    {
      var rr := flat[k];
      Seqs.FlattenMembership(cs, rr);
      var i :| 0 <= i < |cs| && rr in cs[i];
      ContributionHeader(t, qs[i], FetchOf(fetches, i), rr);
    }
  }
}
