# basic-auth-dns: the query-answering path, in Dafny

basic-auth-dns is a small authoritative DNS server. Its answers come from a
SQLite table of `(id, name, type, value)` rows, and an HTTP API manages that
table. This project models the server's core, `handleDNSRequest`, together
with the record table it reads and the three writes that change the table.

For each question of an inbound query, in order, the handler:

- strips every trailing `.` from the queried name (`strings.TrimRight`);
- selects the rows whose name equals the stripped name and whose type equals
  the mnemonic of the question's type code (`dns.TypeToString`);
- turns each selected row into one answer. Type A (code 1) gives an A record
  whose address is `net.ParseIP` of the row's value. Type TXT (code 16) gives
  a TXT record whose single string is the value. Any other type gives
  nothing.

Every answer carries the question's original name, class IN (1) and a TTL of
3600. The reply's AA bit is always set. If the lookup for a question reports
an error, that question adds no answers and the others are unaffected. If
reading a lookup's rows stops early on an error, the rows read so far are
answered as if the lookup had succeeded (see "## Findings").

Modules, one per concern:

- `Names` (`names.dfy`): name normalisation.
- `IPv4` (`ipv4.dfy`): the dotted-quad part of `net.ParseIP`, with its inverse `Format`.
- `Dns` (`dns.dfy`): type and class codes, the type-code-to-mnemonic table, and the question, answer and reply datatypes.
- `RecordStore` (`records.dfy`): the table as an explicit value, with AUTOINCREMENT ids, insert, update, delete and lookup.
- `Responder` (`responder.dfy`): the handler, both as pure functions and as the loop the Go code runs.
- `ResponderProperties` (`responder_props.dfy`): lemmas that relate several questions, rows or tables.
- `Scenario` (`scenario.dfy`): a worked example.
- `Seqs` and `Wrappers` (`seqs.dfy`, `wrappers.dfy`): generic helpers.

The handler only reads the table. It receives the table as a value and
returns just a `Reply`, so it cannot change the table. How the store behaves
during each question's lookup is an explicit input. `fetches` maps a question's
position to a `Fetch`:

- `Complete`: every row is read. This is the default for unmapped positions.
- `Failed`: `db.Query` or `rows.Scan` returned an error.
- `Cut(n)`: `rows.Next` stopped on an error after `n` rows.

Two behaviours of the code are easy to misread:

- The comment at basic-auth-dns/main.go:122 speaks of removing one trailing
  dot, but `TrimRight` strips all of them, so `"foo.test.."` normalises to
  `"foo.test"` (`Names.TrimExamples`). The model follows the code.
- An A row whose value is not an address is not skipped. The handler appends
  the A record anyway, with a nil address. The model keeps such an answer,
  with the address absent (`ResponderProperties.MalformedAddressKept`).

## Model

| member | source | states |
|---|---|---|
| `Names.TrimTrailingDots` | basic-auth-dns/main.go:123 | The normalised name is a prefix of the queried name, does not end in `.`, and everything removed was `.` |
| `Names.TrimUnique` | basic-auth-dns/main.go:123 | Those three properties determine the normalised name: `TrimRight` removes exactly the maximal run of trailing dots |
| `Names.TrimIdempotent` | basic-auth-dns/main.go:123 | Normalising twice gives the same name as normalising once |
| `Names.TrimIgnoresAppendedDots` | basic-auth-dns/main.go:123 | Appending any number of dots to a name does not change its normal form |
| `Names.TrimExamples` | basic-auth-dns/main.go:123 | `foo.test.`, `foo.test..` and `foo.test` all normalise to `foo.test`; the root name `.` normalises to the empty name |
| `IPv4.ParseFormat` | basic-auth-dns/main.go:140 | Every IPv4 address parses back from its dotted-quad spelling |
| `IPv4.Parse` | basic-auth-dns/main.go:140 | A value that parses as an address is exactly the canonical spelling of that address: four fields, no leading zeros, each at most 255. Anything else has no address |
| `IPv4.ParseOctet` | basic-auth-dns/main.go:140 | A field that parses is the canonical decimal spelling of its value |
| `Dns.TypeToString` | basic-auth-dns/main.go:125-127 | A code has a non-empty mnemonic exactly when the table holds an entry for it, and that mnemonic is the entry's. A missing code gives the empty string, as a missing Go map key does |
| `Dns.TypeNamesDistinct` | basic-auth-dns/main.go:125-127 | Distinct known type codes have distinct mnemonics, so the type string the lookup is keyed on identifies the asked type; only unknown codes share one, the empty string |
| `Dns.AnswerableTypeNames` | basic-auth-dns/main.go:125-127 | Code 1 has the mnemonic `A` and code 16 has `TXT`, the two strings the handler's answers are built for |
| `RecordStore.EmptyValid` | basic-auth-dns/main.go:34-41 | A freshly created table is empty and satisfies the id invariant |
| `RecordStore.Insert` | basic-auth-dns/main.go:47-55 | Insert appends one row under an id larger than any id ever assigned and records it as the new high-water mark. It fails with `Full` exactly when id 2^63-1 was already used. The id invariant is preserved |
| `RecordStore.Update` | basic-auth-dns/main.go:57-61 | The row with the given id gets the new name, type and value and keeps its id and position. Every other row is unchanged. A missing id leaves the table unchanged. The invariant is preserved |
| `RecordStore.UpdateChangesAtMostOneRow` | basic-auth-dns/main.go:58 | On a valid table an update changes at most one row |
| `RecordStore.Delete` | basic-auth-dns/main.go:63-67 | Delete removes exactly the rows with that id: one row if the id is present, and no change otherwise. The high-water mark is kept, so the id is never handed out again |
| `RecordStore.AssignedIdsFresh` | basic-auth-dns/main.go:36 | Over any sequence of inserts, updates and deletes, the assigned ids strictly increase and all exceed the ids assigned earlier, so an id is never reused |
| `RecordStore.Query` | basic-auth-dns/main.go:69-88 | `queryDNS` as written. It reports an error exactly when the query or a row scan fails. Otherwise it returns a prefix of the matching rows: all of them when the read completes, and, when `rows.Next` stops early after `n` rows, the first `n` matching rows (all of them if it stopped at or after the last match), with no error |
| `RecordStore.QueryHidesInterruption` | basic-auth-dns/main.go:77-87 | A read interrupted before the last matching row is reported as a success that holds fewer rows than match |
| `RecordStore.QueryChecked` | basic-auth-dns/main.go:77-87 | `queryDNS` with the `rows.Err()` check added. It succeeds only when the read completes, and then returns all matching rows. It reports an interrupted read as an error, and agrees with `Query` on every other outcome |
| `RecordStore.Apply` | basic-auth-dns/main.go:173-226 | Any management write (add, modify, remove) keeps the table invariant and never lowers the largest id assigned |
| `RecordStore.Lookup` | basic-auth-dns/main.go:69-88 | A row is returned exactly when it is in the table with the same name and type. No match gives an empty result, not an error |
| `RecordStore.LookupAppend` | basic-auth-dns/main.go:76-85 | The lookup preserves store order: it distributes over concatenation of the table's rows |
| `RecordStore.LookupIdOrder` | basic-auth-dns/main.go:70 | On a table kept in id order, the lookup returns rows in increasing id order |
| `Responder.Resolve` | basic-auth-dns/main.go:123-127 | A question selects exactly the rows matching its trailing-dot-free name and the mnemonic of its type |
| `Responder.Entry` | basic-auth-dns/main.go:137-149 | The answer a row gives carries the question's own name and type, class IN and TTL 3600. It is an A record with the parsed value for type A, and a TXT record holding the value for type TXT |
| `Responder.Contribution` | basic-auth-dns/main.go:127-153 | A question adds nothing when its lookup reports an error, and all of its answers when the read completes. In every case it adds a prefix of its complete answers |
| `Responder.Synthesize` | basic-auth-dns/main.go:133-153 | For A, each row gives exactly one A answer, in row order: original name, type A, class IN, TTL 3600, address = parse of the value (absent if unparsable). For TXT, each row gives one TXT answer whose single string is the value. Other types give nothing |
| `Responder.Answers` | basic-auth-dns/main.go:121-154 | Every answer in the section has class IN, TTL 3600, and the name and type of one of the questions asked |
| `Responder.SynthesizeAppend` | basic-auth-dns/main.go:133-153 | Synthesis distributes over concatenated rows, so answers follow lookup order |
| `Responder.Handle` | basic-auth-dns/main.go:117-154 | The reply is always authoritative, and every answer has class IN and TTL 3600 |
| `Responder.HandleDNSRequest` | basic-auth-dns/main.go:114-160 | The question loop builds exactly the answer section `Answers` defines, and sets the AA bit |
| `Responder.AppendAnswers` | basic-auth-dns/main.go:133-153 | The per-record loop appends exactly the synthesised answers for the looked-up rows |
| `ResponderProperties.AnswersAppend` | basic-auth-dns/main.go:121-154 | The answer section for `qs1 + qs2` is the section for `qs1` followed by that for `qs2`. Earlier questions, failed or not, never change what later questions add or its order |
| `ResponderProperties.SingleQuestion` | basic-auth-dns/main.go:127-153 | A lone question gives no answers when its lookup reports an error, and one answer per matching row when the read completes. When the read stops after `n` rows, it gives one answer per row among the first `n` matches |
| `ResponderProperties.SynthesizeMembership` | basic-auth-dns/main.go:133-153 | An answer of a question comes from one of its rows, each row yields one, and only A and TXT yield any |
| `ResponderProperties.AnswersExactly` | basic-auth-dns/main.go:121-153 | An answer is in the reply exactly when some question of type A or TXT turns some matching row into it. That question's lookup must have reported no error and, if its read was cut short, must have read the row. Nothing is invented, and nothing matching is lost except rows an interrupted read never reached |
| `ResponderProperties.CutAnswersArePrefix` | basic-auth-dns/main.go:77-87 | A read cut short after `n` rows gives the first `n` answers (or all, if fewer match) of the complete read, silently |
| `ResponderProperties.CheckedLookupAllOrNothing` | basic-auth-dns/main.go:127-131 | With the corrected lookup, a question adds all of its answers when the read completes, and none when it fails or is cut short |
| `ResponderProperties.UnanswerableAddsNothing` | basic-auth-dns/main.go:136-152 | Questions of any type other than A and TXT produce no answers, whatever rows match |
| `ResponderProperties.MalformedAddressKept` | basic-auth-dns/main.go:137-142 | A matching A row whose value is not an address still yields an A answer, with the address absent, whenever the lookup reported no error and its read reached the row |
| `ResponderProperties.TrailingDotsSelectSameRows` | basic-auth-dns/main.go:123-127 | A name with trailing dots selects the same rows as the bare name |
| `ResponderProperties.SwapRowsSameAnswers` | basic-auth-dns/main.go:127-153 | Swapping two neighbouring rows of the table changes only the order of one question's answers, not which answers appear |
| `ResponderProperties.SwapRowsSameReply` | basic-auth-dns/main.go:121-154 | The same holds for the whole reply, as long as no lookup's read is cut short |
| `Scenario.ExampleAddressReply` | basic-auth-dns/main.go:114-160 | With rows `foo.test A 10.0.0.5` and `foo.test TXT hello`, an A question for `foo.test.` gets exactly one A answer (`foo.test.`, IN, 3600, 10.0.0.5), authoritative |
| `Scenario.ExampleTextReply` | basic-auth-dns/main.go:144-149 | The same table answers a TXT question for `foo.test` with exactly one TXT answer whose single string is `hello` |
| `Scenario.ExampleOtherTypeReply` | basic-auth-dns/main.go:136-152 | The same table answers an MX question with an empty, authoritative reply |
| `Scenario.CutLookupAnswersPartially` | basic-auth-dns/main.go:77-87 | With two A rows for `foo.test`, a read that stops after the first row gives an authoritative reply with only the first address. A complete read gives two answers |

## Left out

- `handleAPIRequest` (basic-auth-dns/main.go:163-230): JSON decoding and HTTP status handling. Its three writes are modelled as `Insert`, `Update` and `Delete`, and its read as `Query`.
- `initDatabase` and `main` (basic-auth-dns/main.go:27-45, 232-244): opening the database file, creating the table, and binding the DNS and HTTP servers. The table's schema is modelled as `Record` and `Table`.
- All printing and logging (`fmt.Printf`, `fmt.Println`, `fmt.Sprintf`, `log.Printf`).
- `dns.Msg.SetReply` and wire encoding: the reply is modelled only through the two parts the handler decides, the AA bit and the answers. Copying the id, opcode and question section belongs to the DNS library, which is not part of this model.
- `WriteMsg` transmission errors: logged by the handler and do not affect the reply.
- Database errors other than a full AUTOINCREMENT table: write failures of `db.Exec` are not modelled, because they come from SQLite I/O. How a lookup's read ends (complete, failed, or interrupted after some rows) is the `fetches` input, not something the model computes.
- `ResponderProperties.SwapRowsSameReply`: holds only when no read is cut short. An interrupted read returns the first rows in store order, so the row order decides which answers survive.
- `IPv4.Parse`: covers only the dotted-quad IPv4 form of `net.ParseIP`. IPv6 and IPv4-in-IPv6 spellings give an absent address here. The A answer is still produced, as for any value that does not parse.
- `Dns.TypeToString`: holds eleven common type codes (A, NS, CNAME, SOA, PTR, MX, TXT, AAAA, SRV, ANY, CAA), not the DNS library's full table. Other codes map to the empty string, as a missing Go map key does. Only codes 1 and 16 produce answers, and `UnanswerableAddsNothing` shows that the mnemonic of any other code cannot change the reply.
- Concurrency: the HTTP server's goroutine and the DNS server's per-query dispatch are not modelled. Each query is handled against one table value.
- The commented-out earlier handler (basic-auth-dns/main.go:89-112) is dead code and is not modelled.

## Findings

| source | as written | input that shows it | evidently intended | confidence | as-written member | corrected member |
|---|---|---|---|---|---|---|
| basic-auth-dns/main.go:77-87 | `queryDNS` loops while `rows.Next()` is true and never calls `rows.Err()`. `rows.Next` also returns false when reading fails, so an interrupted read returns the rows read so far with a nil error. The handler then answers from that partial list as if the lookup had succeeded | Two A rows for `foo.test`. The read fails after the first row. The reply is a success with one address instead of two | Check `rows.Err()` after the loop and report an error. The question then adds no answers, as for a failed query | medium; not executed | `RecordStore.Query`, `RecordStore.QueryHidesInterruption`, `Scenario.CutLookupAnswersPartially` | `RecordStore.QueryChecked`, `ResponderProperties.CheckedLookupAllOrNothing` |

The handler model (`Responder.Contribution` and everything built on it) uses
`RecordStore.Query`, because it describes the server as it behaves.
`RecordStore.QueryChecked` is proved to differ from `Query` only on
interrupted reads. `ResponderProperties.CheckedLookupAllOrNothing` shows that
with `QueryChecked`, every question adds all of its answers or none.
