/**
 * A worked example: a table holding an address row and a text row for
 * `foo.test`, created through the management inserts, and the replies the
 * handler gives to questions about that name.
 */
module Scenario {
  import opened Wrappers
  import opened Dns
  import IPv4
  import RecordStore
  import opened Responder
  import Names
  import ResponderProperties

  /** The table after inserting the two example rows into a fresh table. */
  function ExampleTable(): (t: RecordStore.Table)
    ensures RecordStore.Valid(t)
    ensures t.rows == [RecordStore.Record(1, "foo.test", "A", "10.0.0.5"),
                       RecordStore.Record(2, "foo.test", "TXT", "hello")]
  {
    RecordStore.EmptyValid();
    var first := RecordStore.Insert(RecordStore.Empty, "foo.test", "A", "10.0.0.5");
    var second := RecordStore.Insert(first.value.table, "foo.test", "TXT", "hello");
    second.value.table
  }

  lemma ParseExampleAddress()
    ensures IPv4.Parse("10.0.0.5") == Some(IPv4.Address(10, 0, 0, 5))
  {
    IPv4.ParseFormat(IPv4.Address(10, 0, 0, 5));
    assert IPv4.FormatOctet(10) == "10";
    assert IPv4.Format(IPv4.Address(10, 0, 0, 5)) == "10.0.0.5";
  }

  /** The rows the example table holds for each name and type asked about below. */
  lemma ExampleLookups()
    ensures RecordStore.Lookup(ExampleTable().rows, "foo.test", "A") == [ExampleTable().rows[0]]
    ensures RecordStore.Lookup(ExampleTable().rows, "foo.test", "TXT") == [ExampleTable().rows[1]]
    ensures RecordStore.Lookup(ExampleTable().rows, "foo.test", "MX") == []
  {
    var rows := ExampleTable().rows;
    RecordStore.LookupAppend([rows[0]], [rows[1]], "foo.test", "A");
    RecordStore.LookupAppend([rows[0]], [rows[1]], "foo.test", "TXT");
    RecordStore.LookupAppend([rows[0]], [rows[1]], "foo.test", "MX");
    assert [rows[0]] + [rows[1]] == rows;
  }

  /** The A question for `foo.test.` selects the address row, the TXT question the text row. */
  lemma ExampleResolves()
    ensures Resolve(ExampleTable(), Question("foo.test.", TypeA, ClassINET)) == [ExampleTable().rows[0]]
    ensures Resolve(ExampleTable(), Question("foo.test", TypeTXT, ClassINET)) == [ExampleTable().rows[1]]
  {
    Names.TrimExamples();
    Dns.AnswerableTypeNames();
    ExampleLookups();
  }

  /** An A question for the fully qualified name gets one A answer with the stored address. */
  lemma ExampleAddressReply()
    ensures Handle(ExampleTable(), [Question("foo.test.", TypeA, ClassINET)], map[])
         == Reply(true, [A(Header("foo.test.", TypeA, ClassINET, 3600), Some(IPv4.Address(10, 0, 0, 5)))])
  {
    var q := Question("foo.test.", TypeA, ClassINET);
    ExampleResolves();
    ParseExampleAddress();
    ResponderProperties.SingleQuestion(ExampleTable(), q, map[]);
  }

  /** A TXT question gets one TXT answer carrying the stored text as its single string. */
  lemma ExampleTextReply()
    ensures Handle(ExampleTable(), [Question("foo.test", TypeTXT, ClassINET)], map[])
         == Reply(true, [TXT(Header("foo.test", TypeTXT, ClassINET, 3600), ["hello"])])
  {
    var q := Question("foo.test", TypeTXT, ClassINET);
    ExampleResolves();
    ResponderProperties.SingleQuestion(ExampleTable(), q, map[]);
  }

  /** A question of a type the handler does not answer gets an empty, authoritative reply. */
  lemma ExampleOtherTypeReply()
    ensures Handle(ExampleTable(), [Question("foo.test.", TypeMX, ClassINET)], map[]) == Reply(true, [])
  {
    ResponderProperties.UnanswerableAddsNothing(ExampleTable(), [Question("foo.test.", TypeMX, ClassINET)], map[]);
  }

  /** Two address rows for `foo.test`, in id order. */
  const TwoAddressRows: seq<RecordStore.Record> :=
    [RecordStore.Record(1, "foo.test", "A", "10.0.0.5"), RecordStore.Record(2, "foo.test", "A", "10.0.0.6")]

  /** A table holding two addresses for `foo.test`. */
  function TwoAddressTable(): (t: RecordStore.Table)
    ensures RecordStore.Valid(t)
    ensures t.rows == TwoAddressRows
  {
    RecordStore.EmptyValid();
    var first := RecordStore.Insert(RecordStore.Empty, "foo.test", "A", "10.0.0.5");
    var second := RecordStore.Insert(first.value.table, "foo.test", "A", "10.0.0.6");
    second.value.table
  }

  /** Looking up `foo.test` A in the two address rows keeps both. */
  lemma TwoAddressLookup()
    ensures RecordStore.Lookup(TwoAddressRows, "foo.test", "A") == TwoAddressRows
  {
    var rows := TwoAddressRows;
    RecordStore.LookupAppend([rows[0]], [rows[1]], "foo.test", "A");
    assert [rows[0]] + [rows[1]] == rows;
  }

  /** The A question for `foo.test.` selects both address rows. */
  lemma TwoAddressResolve()
    ensures Resolve(TwoAddressTable(), Question("foo.test.", TypeA, ClassINET)) == TwoAddressRows
  {
    Names.TrimExamples();
    Dns.AnswerableTypeNames();
    TwoAddressLookup();
  }

  /**
   * When reading the result set fails after the first of two matching rows,
   * the reply is a success that carries only the first address; a complete
   * read answers with both.
   */
  lemma CutLookupAnswersPartially()
    ensures Handle(TwoAddressTable(), [Question("foo.test.", TypeA, ClassINET)], map[0 := RecordStore.Cut(1)])
         == Reply(true, [A(Header("foo.test.", TypeA, ClassINET, 3600), Some(IPv4.Address(10, 0, 0, 5)))])
    ensures |Handle(TwoAddressTable(), [Question("foo.test.", TypeA, ClassINET)], map[]).answers| == 2
  {
    CutReadReply();
    CompleteReadReply();
  }

  /** The cut half of `CutLookupAnswersPartially`. */
  lemma CutReadReply()
    ensures Handle(TwoAddressTable(), [Question("foo.test.", TypeA, ClassINET)], map[0 := RecordStore.Cut(1)])
         == Reply(true, [A(Header("foo.test.", TypeA, ClassINET, 3600), Some(IPv4.Address(10, 0, 0, 5)))])
  {
    var q := Question("foo.test.", TypeA, ClassINET);
    TwoAddressResolve();
    ParseExampleAddress();
    assert RecordStore.FirstRows(TwoAddressRows, 1) == [TwoAddressRows[0]];
    ResponderProperties.SingleQuestion(TwoAddressTable(), q, map[0 := RecordStore.Cut(1)]);
  }

  /** The complete half of `CutLookupAnswersPartially`. */
  lemma CompleteReadReply()
    ensures |Handle(TwoAddressTable(), [Question("foo.test.", TypeA, ClassINET)], map[]).answers| == 2
  {
    var q := Question("foo.test.", TypeA, ClassINET);
    TwoAddressResolve();
    ResponderProperties.SingleQuestion(TwoAddressTable(), q, map[]);
  }
}
