# WHOIS client core, modelled in Dafny

This project models the two pieces of the `webapp` crate's WHOIS client that hold
real logic:

- **The response parser** (`Parser::parse`). The raw WHOIS text is split on `"\n"`.
  Each line is trimmed and lower-cased as a whole, then split at its first `':'`
  into a key and a value. Fourteen known keys fill a `WhoisInformation` record that
  starts from its defaults. Text fields take the last matching value. `"name server"`
  values are appended in line order. The three date keys go through a date parser,
  and one rejected date makes the whole parse fail.
- **The two-hop lookup** (`Whois::query` and `Whois::lookup`). A lookup writes
  `domain + "\r\n"`, reads the whole reply, rejects an empty reply and decodes the
  rest as UTF-8. A query looks up the configured `host:port` server first. It then
  takes the referral host: the text after the first `"whois:"` of the reply,
  trimmed, up to its first newline. The second lookup goes to that host on the
  configured port, and its reply is the result.

Files:

- `wrappers.dfy`: `Option` and `Result`.
- `sequences.dfy`: the associativity of concatenation, shared by the modules below.
- `strings.dfy`: the Rust `str` operations the core uses. `trim` drops exactly the
  Unicode White_Space characters. The others are `to_lowercase`, `contains`,
  `split_once` and `split("\n")`.
- `utf8.dfy`: the UTF-8 encoding of `str::as_bytes` and the validity check of
  `String::from_utf8`. The byte ranges follow RFC 3629, section 4. Both round trips
  are proved.
- `parser.dfy`: `crates/webapp/src/parser.rs`.
  - The parse loop is the method `ParseBody`; its loop body is the method `StoreLine`.
  - `ParseBody` is proved equal to the fold `ParseEntries` over the lines'
    (key, value) entries. `StoreLine` is proved equal to the fold's step, `ApplyEntry`.
  - The fold's properties are proved as lemmas.
- `whois.dfy`: `crates/webapp/src/lib.rs`.
  - The socket exchange is a parameter, `Network`. It maps a connection number, an
    address and the request bytes to the reply bytes or the failing socket operation.
    The first lookup of a query is connection 0 and the second is connection 1. The
    two are separate exchanges even when they reach the same address.
  - `Lookup` and `Query` are pure functions of that network.

Where the crate's documented intent and its code differ, the model follows the
code:

- Values are lower-cased along with keys.
- Values are not trimmed after the split, so they keep the space after the colon.
- A record with no `"name server"` line has an empty list, not an absent one.
- A date with no line stays at the default instant (the Unix epoch).
- `"whois:"` is searched case-sensitively over the whole reply, not line by line.
- A reply without `"whois:"` is an error (`GeneralErr` with context "could not find
  whois server to lookup"). It is not taken as the final answer.
- The referral host is everything up to the newline. A referral written
  `whois: referral.example:43` gives the host `referral.example:43`, and the second
  address becomes `referral.example:43:43`.
- The trim happens before the cut at the newline. A reply with CR LF line endings
  therefore leaves a carriage return at the end of the host
  (`ReferralKeepsCarriageReturn`).

`Parse` is specified as equal to the function `Parsed` of its input, which is the
fold `ParseEntries` from `Default()` over `Entries(SplitLines(content))`. The
`Default…` lemmas state what that fold yields. `EntriesAreLowerCase` supplies their
lower-case premise for every text. Parsing the same text twice gives equal results,
because `Parser` holds no state.

## Model

| member | source | states |
|---|---|---|
| Strings.Trim | crates/webapp/src/parser.rs:57 | `trim` yields a slice of the line: everything cut from either end is White_Space, and the result neither starts nor ends with White_Space |
| Strings.Lower | crates/webapp/src/parser.rs:57 | `to_lowercase` keeps the length and leaves no ASCII capital; each character is unchanged or is the capital's lower-case letter |
| Strings.LowerTrimCommute | crates/webapp/src/parser.rs:57 | trimming then lower-casing equals lower-casing then trimming |
| Strings.Contains | crates/webapp/src/parser.rs:60 | `contains` holds exactly when the pattern occurs at some index |
| Strings.SplitOnce | crates/webapp/src/parser.rs:58 | `split_once` gives `None` exactly when the pattern never occurs; otherwise the text is before + pattern + after, cut at the first occurrence |
| Strings.SplitOnceFirst | crates/webapp/src/lib.rs:63 | any way of writing a text around the first occurrence of a pattern is the split `split_once` returns |
| Strings.SplitOnceChar | crates/webapp/src/parser.rs:58 | for one character, `split_once` fails exactly when the character is absent; the part before has none of it |
| Strings.SplitLines | crates/webapp/src/parser.rs:53 | `split("\n")` gives at least one piece; no piece holds a newline; joining the pieces with newlines gives back the text |
| Strings.SplitJoin | crates/webapp/src/parser.rs:53 | splitting the joined text gives back the pieces, when none holds a newline |
| Utf8.Decode | crates/webapp/src/lib.rs:87 | `from_utf8` accepts bytes only when they are the encoding of the string it returns |
| Utf8.DecodeFirstEncodeChar | crates/webapp/src/lib.rs:87 | the first character's encoding decodes back to that character, whatever bytes follow |
| Utf8.DecodeEncode | crates/webapp/src/lib.rs:87 | every string survives an encode/decode round trip |
| Utf8.DecodeSucceedsIffEncoding | crates/webapp/src/lib.rs:87 | decoding gives `s` exactly when the bytes are the encoding of `s` |
| Utf8.EncodeAppend | crates/webapp/src/lib.rs:79 | the bytes of a concatenation are the concatenated bytes |
| Parser.KeyOf | crates/webapp/src/parser.rs:72-96 | the key table selects the field whose key text equals the key, and an unknown key selects none |
| Parser.KeyOfLabel | crates/webapp/src/parser.rs:73-95 | every key text of the table selects its own field |
| Parser.DefaultFields | crates/webapp/src/parser.rs:24-44 | the default record has empty texts, dates at the epoch, no name servers, and is lower-case |
| Parser.Joints | crates/webapp/src/parser.rs:58 | `split_once(":").unwrap_or_default()`: key + ":" + value is the line and the key has no ':'; a line with no ':' gives two empty texts |
| Parser.JointsFacts | crates/webapp/src/parser.rs:58-60 | the key is a prefix of the line, so the `contains` guard always holds; key and value are lower-case |
| Parser.LineEntry | crates/webapp/src/parser.rs:56-65 | the closure never gives `None`; it cuts the trimmed, lower-cased line at its first ':' into a lower-case key and value |
| Parser.LineEntryIgnoresCase | crates/webapp/src/parser.rs:57 | lines that differ only in letter case give the same key and value |
| Parser.LineWithoutColonChangesNothing | crates/webapp/src/parser.rs:58-96 | a line with no ':' yields the empty key, which falls through to `_ => ()` and leaves the record unchanged |
| Parser.Entries | crates/webapp/src/parser.rs:56-65 | the mapped body: one (key, value) entry per line, the closure's, in line order |
| Parser.StoreFieldEffect | crates/webapp/src/parser.rs:73-95 | storing under a key fails exactly for a rejected date; otherwise only that key's field changes: text overwritten, date replaced by the parsed instant, name server appended |
| Parser.ApplyEntryEffect | crates/webapp/src/parser.rs:72-97 | one line fails exactly when it carries a rejected date; otherwise the field whose key text equals the key takes the value, and every other field keeps its value (all of them for an unknown key) |
| Parser.ApplyEntryKeepsLowerCase | crates/webapp/src/parser.rs:72-97 | storing a lower-case value keeps every text of the record lower-case |
| Parser.StoreLine | crates/webapp/src/parser.rs:68-100 | the loop body stores the line's entry exactly as the dispatch does, returning the date error where the source returns it |
| Parser.ParseBody | crates/webapp/src/parser.rs:67-102 | the loop over the lines returns the fold of their entries from the default record |
| Parser.Parse | crates/webapp/src/parser.rs:52-103 | `parse` returns `Parsed(content)`, the fold of the split lines' entries from the default record |
| Parser.ParseEntriesFailsIffBadDate | crates/webapp/src/parser.rs:77-88 | the fold fails exactly when some date key carries a value the date parser rejects |
| Parser.ValuesForMembers | crates/webapp/src/parser.rs:67-101 | the values the loop sees under a key are exactly the values of the entries carrying that key |
| Parser.ParseEntriesTextLastWins | crates/webapp/src/parser.rs:73-95 | a text field ends with the value of the last entry carrying its key, or keeps its starting value when none does |
| Parser.ParseEntriesDateLastWins | crates/webapp/src/parser.rs:77-88 | a date field ends with the instant parsed from the last entry carrying its key, or keeps its starting value when none does |
| Parser.ParseEntriesNameServers | crates/webapp/src/parser.rs:94 | the name servers grow by exactly the "name server" values, one per entry, in order |
| Parser.EntriesAreLowerCase | crates/webapp/src/parser.rs:57 | every key and value the closure produces is lower-case |
| Parser.ParseEntriesLowerCase | crates/webapp/src/parser.rs:57-97 | a fold of lower-case entries over a lower-case record leaves every text lower-case |
| Parser.DefaultTextLastWins | crates/webapp/src/parser.rs:52-103 | after a successful parse from the default record, a text field holds the value of the last line with its key, or "" when there is none |
| Parser.DefaultDateLastWins | crates/webapp/src/parser.rs:52-103 | after a successful parse from the default record, a date field holds the instant of the last line with its key, or the epoch when there is none |
| Parser.DefaultNameServers | crates/webapp/src/parser.rs:52-103 | after a successful parse from the default record, the name servers are the "name server" values in line order, empty when there are none |
| Parser.DefaultLowerCase | crates/webapp/src/parser.rs:52-103 | after a successful parse of lower-case entries from the default record, every stored text is lower-case |
| WhoisClient.New | crates/webapp/src/lib.rs:56-58 | `Whois::new` keeps the given options unchanged |
| WhoisClient.Request | crates/webapp/src/lib.rs:79 | the request bytes are the domain's UTF-8 bytes followed by CR LF, and they decode to `domain + "\r\n"` |
| WhoisClient.CheckReply | crates/webapp/src/lib.rs:84-87 | an empty reply is `WhoisServerIO` with its context; a non-empty one is accepted or is the UTF-8 error; an accepted reply is the encoding of the returned text |
| WhoisClient.CheckReplyAccepts | crates/webapp/src/lib.rs:84-87 | a non-empty reply gives text `s` exactly when it is the encoding of `s` |
| WhoisClient.Lookup | crates/webapp/src/lib.rs:77-88 | a failed socket exchange is reported as that I/O error; a completed exchange gives the reply checks' verdict on its bytes: `WhoisServerIO` when empty, the UTF-8 error, or the text they encode; a successful lookup returns non-empty text |
| WhoisClient.Referral | crates/webapp/src/lib.rs:62-65 | the referral is `GeneralErr` ("could not find whois server to lookup") exactly when "whois:" never occurs; a found host holds no newline |
| WhoisClient.ReferralAfterMarker | crates/webapp/src/lib.rs:63-64 | after the first "whois:", the trimmed rest gives `MissingNewline` when it has no newline, and otherwise the host is that rest up to its first newline |
| WhoisClient.ReferralKeepsCarriageReturn | crates/webapp/src/lib.rs:63-64 | when the trimmed rest reads host + CR LF + more, the referral is host + CR |
| WhoisClient.Port | crates/webapp/src/lib.rs:67-69 | the port is `GeneralErr` ("whois server should be in host:port format") exactly when the server has no ':'; otherwise the server is host + ":" + port with no ':' in the host |
| WhoisClient.PortOfHostPort | crates/webapp/src/lib.rs:67-69 | the port of host + ":" + port, for a host without ':', is that port |
| WhoisClient.Query | crates/webapp/src/lib.rs:60-71 | a successful query returns non-empty text and its first lookup succeeded; every `WhoisError` it returns is one of the four with their context texts |
| WhoisClient.QuerySucceeds | crates/webapp/src/lib.rs:60-71 | a successful query made two exchanges for the same domain, at the configured server and at referral host + ":" + port; its result is the second reply's text, with no further referral followed |
| WhoisClient.QuerySucceedsWhen | crates/webapp/src/lib.rs:60-71 | conversely, a first reply with a referral, a "host:port" server and a second reply encoding non-empty text make the query return that text |
| WhoisClient.QueryDependsOnTwoExchanges | crates/webapp/src/lib.rs:61-70 | networks that answer the first connection at the configured server, and the second at every possible host + ":" + port, alike give the same query result |
| WhoisClient.QueryErrorOrder | crates/webapp/src/lib.rs:60-71 | errors are checked in this order: a failed first lookup (whatever the server looks like), a missing "whois:", a missing newline, then a server without ':'; once all pass, the query is the second lookup at referral host + ":" + port, with its own outcome |

## Left out

- The TCP connection, `async`/`await` and the futures of `lookup` and `query`. The exchange is the `Network` parameter, and a socket failure is a tag: connect, write or read.
- The return value of `conn.write`. The source ignores how many bytes were written; the model takes the whole request as sent.
- chrono's `DateTime<Utc>` and `from_str`. `DateTime` is a stand-in holding nanoseconds since the epoch, and the date parser is a function parameter. The error is the tag `DateParseError`; chrono's error details are not kept.
- Lower: models `to_lowercase` for the ASCII letters only. Other letters are left as they are, because full Unicode case mapping can change a string's length.
- `Box<dyn Error>` and the `thiserror` display texts. Errors are tags, and `WhoisError` keeps its context texts.
- `Parser::new` and the `Parser` unit struct. They hold no state, so `Parse` is a module-level method.
- The `WhoisResolver` trait. `New` and `Query` are plain functions on the `Whois` value.
- The derived `Clone` and `Debug` impls.
- The rest of the repository: the HTTP front ends, the rate limiter, the macros and the other crates.
