/**
 * The slice of the DNS message model the handler uses: question and
 * resource-record type codes (section 3.2.2 of RFC 1035), the Internet class
 * (section 3.2.4 of RFC 1035), the type-code-to-mnemonic table the handler
 * consults, and abstract questions, answer records and replies. Wire
 * encoding is not modelled.
 */
module Dns {
  import opened Wrappers
  import IPv4

  newtype uint16 = x: int | 0 <= x < 0x1_0000
  newtype uint32 = x: int | 0 <= x < 0x1_0000_0000

  const TypeA: uint16 := 1
  const TypeNS: uint16 := 2
  const TypeCNAME: uint16 := 5
  const TypeSOA: uint16 := 6
  const TypePTR: uint16 := 12
  const TypeMX: uint16 := 15
  const TypeTXT: uint16 := 16
  const TypeAAAA: uint16 := 28
  const TypeSRV: uint16 := 33
  const TypeANY: uint16 := 255
  const TypeCAA: uint16 := 257

  const ClassINET: uint16 := 1

  /** Every answer the handler builds carries this time-to-live, in seconds. */
  const AnswerTtl: uint32 := 3600

  /** The mnemonics of the type codes this model knows, in code order. */
  const TypeNames: seq<(uint16, string)> := [
    (TypeA, "A"), (TypeNS, "NS"), (TypeCNAME, "CNAME"), (TypeSOA, "SOA"), (TypePTR, "PTR"),
    (TypeMX, "MX"), (TypeTXT, "TXT"), (TypeAAAA, "AAAA"), (TypeSRV, "SRV"), (TypeANY, "ANY"),
    (TypeCAA, "CAA")
  ]

  /** The mnemonic `names` gives code `t`, or the empty string. */
  function NameIn(names: seq<(uint16, string)>, t: uint16): (s: string)
    decreases |names|
  {
    if |names| == 0 then ""
    else if names[0].0 == t then names[0].1
    else NameIn(names[1..], t)
  }

  /**
   * `dns.TypeToString[t]`: the mnemonic of a type code. A code the table
   * does not hold yields the empty string, as indexing a Go map with a
   * missing key does.
   */
  function TypeToString(t: uint16): (s: string)
    ensures s != "" <==> exists k :: 0 <= k < |TypeNames| && TypeNames[k].0 == t
    ensures s != "" ==> (t, s) in TypeNames
  {
    assert forall i :: 0 <= i < |TypeNames| ==> TypeNames[i].1 != "";
    NameInFound(TypeNames, t);
    NameIn(TypeNames, t)
  }

  /** Distinct codes and distinct non-empty mnemonics: the table is a bijection. */
  predicate Bijective(names: seq<(uint16, string)>) {
    && (forall i, j :: 0 <= i < j < |names| ==> names[i].0 != names[j].0 && names[i].1 != names[j].1)
    && (forall i :: 0 <= i < |names| ==> names[i].1 != "")
  }

  /** In a bijective table, a known mnemonic names exactly one code. */
  lemma {:induction false} NameInInjective(names: seq<(uint16, string)>, t1: uint16, t2: uint16)
    requires Bijective(names)
    ensures NameIn(names, t1) != "" && NameIn(names, t1) == NameIn(names, t2) ==> t1 == t2
    decreases |names|
  {
    if |names| > 0 {
      assert Bijective(names[1..]) by {
        forall i, j | 0 <= i < j < |names[1..]|
          ensures names[1..][i].0 != names[1..][j].0 && names[1..][i].1 != names[1..][j].1
        {
          assert names[1..][i] == names[i + 1] && names[1..][j] == names[j + 1];
        }
      }
      NameInInjective(names[1..], t1, t2);
      NameInFound(names[1..], t1);
      NameInFound(names[1..], t2);
      if names[0].0 == t1 && names[0].0 != t2 && NameIn(names, t2) != "" {
        var k :| 0 <= k < |names[1..]| && names[1..][k] == (t2, NameIn(names, t2));
        assert names[k + 1] == names[1..][k];
      }
      if names[0].0 == t2 && names[0].0 != t1 && NameIn(names, t1) != "" {
        var k :| 0 <= k < |names[1..]| && names[1..][k] == (t1, NameIn(names, t1));
        assert names[k + 1] == names[1..][k];
      }
    }
  }

  /**
   * In a table without empty mnemonics, `NameIn` finds a mnemonic exactly
   * when the table has an entry for the code, and what it finds is an entry.
   */
  lemma {:induction false} NameInFound(names: seq<(uint16, string)>, t: uint16)
    requires forall i :: 0 <= i < |names| ==> names[i].1 != ""
    ensures NameIn(names, t) != "" <==> exists k :: 0 <= k < |names| && names[k].0 == t
    ensures NameIn(names, t) != "" ==> exists k :: 0 <= k < |names| && names[k] == (t, NameIn(names, t))
    decreases |names|
  {
    if |names| > 0 && names[0].0 != t {
      NameInFound(names[1..], t);
      if NameIn(names, t) != "" {
        var k :| 0 <= k < |names[1..]| && names[1..][k] == (t, NameIn(names, t));
        assert names[k + 1] == names[1..][k];
      }
      forall k | 0 <= k < |names| && names[k].0 == t
        ensures NameIn(names, t) != ""
      {
        assert names[1..][k - 1] == names[k];
      }
    }
  }

  /**
   * Distinct known codes have distinct mnemonics, so the mnemonic the
   * handler queries by identifies the asked type; only codes the table does
   * not hold share one, the empty string.
   */
  lemma TypeNamesDistinct(t1: uint16, t2: uint16)
    ensures TypeToString(t1) != "" && TypeToString(t1) == TypeToString(t2) ==> t1 == t2
  {
    assert Bijective(TypeNames);
    NameInInjective(TypeNames, t1, t2);
  }

  /** The two answerable types have their standard mnemonics. */
  lemma AnswerableTypeNames()
    ensures TypeToString(TypeA) == "A" && TypeToString(TypeTXT) == "TXT"
  {
    assert TypeNames[0] == (TypeA, "A");
    assert TypeNames[6] == (TypeTXT, "TXT");
    assert NameIn(TypeNames[6..], TypeTXT) == "TXT";
    assert NameIn(TypeNames[5..], TypeTXT) == "TXT";
    assert NameIn(TypeNames[4..], TypeTXT) == "TXT";
    assert NameIn(TypeNames[3..], TypeTXT) == "TXT";
    assert NameIn(TypeNames[2..], TypeTXT) == "TXT";
    assert NameIn(TypeNames[1..], TypeTXT) == "TXT";
  }

  /** A question of an inbound query: the name asked about, its type and class. */
  datatype Question = Question(name: string, qtype: uint16, qclass: uint16)

  /** The owner name, type, class and time-to-live every answer record carries. */
  datatype Header = Header(name: string, rrtype: uint16, rrclass: uint16, ttl: uint32)

  /**
   * An answer resource record. An A record's address is absent when the
   * stored value did not parse, as `net.ParseIP` then returns nil.
   */
  datatype RR =
    | A(hdr: Header, addr: Option<IPv4.Address>)
    | TXT(hdr: Header, txt: seq<string>)

  /** The parts of the reply the handler decides: the AA bit and the answers. */
  datatype Reply = Reply(authoritative: bool, answers: seq<RR>)
}
