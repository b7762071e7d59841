/**
 * The WHOIS response parser of crates/webapp/src/parser.rs: the raw text is cut
 * into lines, each line is trimmed, lower-cased and split at its first ':', and
 * the fourteen known keys fill a `WhoisInformation` record that starts from its
 * defaults.
 */
module Parser {
  import opened Wrappers
  import opened Strings
  import opened Sequences

  /** Stands for chrono's `DateTime<Utc>`: an instant, in nanoseconds since the Unix epoch. */
  datatype DateTime = DateTime(unixNanos: int)

  /** `DateTime::default()`: the Unix epoch. */
  const Epoch := DateTime(0)

  /** `DateTime::<Utc>::from_str`, a foreign parser: `None` where it fails. */
  type DateParser = string -> Option<DateTime>

  datatype WhoisInformation = WhoisInformation(
    domainName: string,
    registryDomainId: string,
    registrarWhoisServer: string,
    registrarUrl: string,
    updatedDate: DateTime,
    creationDate: DateTime,
    registryExpirityDate: DateTime,
    registrar: string,
    registrarIanaId: string,
    registrarAbuseEmailContact: string,
    registrarAbusePhoneContact: string,
    domainStatus: string,
    nameservers: seq<string>,
    dnssec: string)

  /** The only way `parse` fails: a date value the date parser rejects. */
  datatype ParseError = DateParseError

  /** The key texts of the fourteen fields, lower-case as the lines are compared. */
  const DomainNameKey := "domain name"
  const RegistryDomainIdKey := "registry domain id"
  const RegistrarWhoisServerKey := "registrar whois server"
  const RegistrarUrlKey := "registrar url"
  const UpdatedDateKey := "updated date"
  const CreationDateKey := "creation date"
  const RegistryExpiryDateKey := "registry expiry date"
  const RegistrarKey := "registrar"
  const RegistrarIanaIdKey := "registrar iana id"
  const RegistrarAbuseContactEmailKey := "registrar abuse contact email"
  const RegistrarAbuseContactPhoneKey := "registrar abuse contact phone"
  const DomainStatusKey := "domain status"
  const NameServerKey := "name server"
  const DnssecKey := "dnssec"

  /** The fourteen keys `parse` recognises, one per record field. */
  datatype Key =
    | DomainName | RegistryDomainId | RegistrarWhoisServer | RegistrarUrl
    | UpdatedDate | CreationDate | RegistryExpiryDate
    | Registrar | RegistrarIanaId | RegistrarAbuseContactEmail | RegistrarAbuseContactPhone
    | DomainStatus | NameServer | Dnssec
  {
    predicate IsDate() {
      this == UpdatedDate || this == CreationDate || this == RegistryExpiryDate
    }

    /** A field that holds one text value, overwritten by each matching line. */
    predicate IsText() {
      !IsDate() && this != NameServer
    }

    /** The lower-case key text that selects this field. */
    function Label(): string {
      match this
      case DomainName => DomainNameKey
      case RegistryDomainId => RegistryDomainIdKey
      case RegistrarWhoisServer => RegistrarWhoisServerKey
      case RegistrarUrl => RegistrarUrlKey
      case UpdatedDate => UpdatedDateKey
      case CreationDate => CreationDateKey
      case RegistryExpiryDate => RegistryExpiryDateKey
      case Registrar => RegistrarKey
      case RegistrarIanaId => RegistrarIanaIdKey
      case RegistrarAbuseContactEmail => RegistrarAbuseContactEmailKey
      case RegistrarAbuseContactPhone => RegistrarAbuseContactPhoneKey
      case DomainStatus => DomainStatusKey
      case NameServer => NameServerKey
      case Dnssec => DnssecKey
    }
  }

  /** The key table: which field, if any, a key text selects. */
  function KeyOf(key: string): (k: Option<Key>)
    ensures k.Some? ==> k.value.Label() == key
    ensures k.None? ==> forall f: Key :: f.Label() != key
  {
    if key == DomainNameKey then Some(DomainName)
    else if key == RegistryDomainIdKey then Some(RegistryDomainId)
    else if key == RegistrarWhoisServerKey then Some(RegistrarWhoisServer)
    else if key == RegistrarUrlKey then Some(RegistrarUrl)
    else if key == UpdatedDateKey then Some(UpdatedDate)
    else if key == CreationDateKey then Some(CreationDate)
    else if key == RegistryExpiryDateKey then Some(RegistryExpiryDate)
    else if key == RegistrarKey then Some(Registrar)
    else if key == RegistrarIanaIdKey then Some(RegistrarIanaId)
    else if key == RegistrarAbuseContactEmailKey then Some(RegistrarAbuseContactEmail)
    else if key == RegistrarAbuseContactPhoneKey then Some(RegistrarAbuseContactPhone)
    else if key == DomainStatusKey then Some(DomainStatus)
    else if key == NameServerKey then Some(NameServer)
    else if key == DnssecKey then Some(Dnssec)
    else None
  }

  /** What a record holds under one key. */
  datatype FieldValue = Text(text: string) | Date(date: DateTime) | List(items: seq<string>)

  function Get(rec: WhoisInformation, k: Key): FieldValue {
    match k
    case DomainName => Text(rec.domainName)
    case RegistryDomainId => Text(rec.registryDomainId)
    case RegistrarWhoisServer => Text(rec.registrarWhoisServer)
    case RegistrarUrl => Text(rec.registrarUrl)
    case UpdatedDate => Date(rec.updatedDate)
    case CreationDate => Date(rec.creationDate)
    case RegistryExpiryDate => Date(rec.registryExpirityDate)
    case Registrar => Text(rec.registrar)
    case RegistrarIanaId => Text(rec.registrarIanaId)
    case RegistrarAbuseContactEmail => Text(rec.registrarAbuseEmailContact)
    case RegistrarAbuseContactPhone => Text(rec.registrarAbusePhoneContact)
    case DomainStatus => Text(rec.domainStatus)
    case NameServer => List(rec.nameservers)
    case Dnssec => Text(rec.dnssec)
  }

  /** Every text field of the record is free of ASCII capitals. */
  predicate TextIsLowerCase(rec: WhoisInformation) {
    (forall k: Key :: k.IsText() ==> IsLowerCase(Get(rec, k).text))
    && forall i :: 0 <= i < |rec.nameservers| ==> IsLowerCase(rec.nameservers[i])
  }

  /** `WhoisInformation::default()`. */
  function Default(): WhoisInformation {
    WhoisInformation("", "", "", "", Epoch, Epoch, Epoch, "", "", "", "", "", [], "")
  }

  /** The default record: empty texts, no name servers, every date at the epoch. */
  lemma DefaultFields(k: Key)
    ensures k.IsText() ==> Get(Default(), k) == Text("")
    ensures k.IsDate() ==> Get(Default(), k) == Date(Epoch)
    ensures Default().nameservers == []
    ensures TextIsLowerCase(Default())
  {
  }

  /** `split_once(":").unwrap_or_default()`: key and value around the first ':', or two empty texts. */
  function Joints(find: string): (r: (string, string))
    ensures ':' in find ==> find == r.0 + ":" + r.1 && ':' !in r.0
    ensures ':' !in find ==> r == ("", "")
  {
    SplitOnceChar(find, ':');
    match SplitOnce(find, ":")
    case Some(p) => p
    case None => ("", "")
  }

  /** The key is a prefix of the line, so `find.contains(key)` holds; both parts keep the line's case. */
  lemma JointsFacts(find: string)
    requires IsLowerCase(find)
    ensures Contains(find, Joints(find).0)
    ensures IsLowerCase(Joints(find).0) && IsLowerCase(Joints(find).1)
  {
    var (a, b) := Joints(find);
    if ':' in find {
      assert find[..|a|] == a;
      forall i | 0 <= i < |a| ensures !IsAsciiUpper(a[i]) {
        assert a[i] == find[i];
      }
      forall i | 0 <= i < |b| ensures !IsAsciiUpper(b[i]) {
        assert b[i] == find[|a| + 1 + i];
      }
    }
    assert OccursAt(find, a, 0);
  }

  /**
   * The per-line closure: trims and lower-cases the whole line, then splits it at
   * its first ':' (a line without one gives two empty texts). The `contains` guard
   * always holds, so the result is never `None`.
   */
  function LineEntry(line: string): (r: Option<(string, string)>)
    ensures r.Some?
    ensures var find := Lower(Trim(line));
      if ':' in find then find == r.value.0 + ":" + r.value.1 && ':' !in r.value.0
      else r.value == ("", "")
    ensures IsLowerCase(r.value.0) && IsLowerCase(r.value.1)
  {
    var find := Lower(Trim(line));
    var joints := Joints(find);
    JointsFacts(find);
    if Contains(find, joints.0) then Some(joints) else None
  }

  /** The key and value of a line, as the closure produces them. */
  function KeyValue(line: string): (string, string) {
    LineEntry(line).value
  }

  /** Every key text selects its own field. */
  lemma KeyOfLabel(k: Key)
    ensures KeyOf(k.Label()) == Some(k)
  {
  }

  /** Key matching ignores letter case: lines equal up to case give the same key and value. */
  lemma LineEntryIgnoresCase(a: string, b: string)
    requires Lower(a) == Lower(b)
    ensures LineEntry(a) == LineEntry(b)
  {
    LowerTrimCommute(a);
    LowerTrimCommute(b);
  }

  /**
   * A line without ':' gives an empty key, which selects no field, so the line
   * leaves the record as it is.
   */
  lemma LineWithoutColonChangesNothing(rec: WhoisInformation, line: string, parseDate: DateParser)
    requires ':' !in Lower(Trim(line))
    ensures ApplyEntry(rec, KeyValue(line).0, KeyValue(line).1, parseDate) == Ok(rec)
  {
    assert KeyValue(line).0 == "";
  }

  /** The key and value of every line, in line order. */
  function Entries(lines: seq<string>): (es: seq<(string, string)>)
    ensures |es| == |lines|
    ensures forall i :: 0 <= i < |lines| ==> es[i] == KeyValue(lines[i])
  {
    seq(|lines|, i requires 0 <= i < |lines| => KeyValue(lines[i]))
  }

  /** One arm of the `match`: the value stored in the field of a known key. */
  function StoreField(rec: WhoisInformation, k: Key, value: string, parseDate: DateParser)
    : Result<WhoisInformation, ParseError>
  {
    match k
    case DomainName => Ok(rec.(domainName := value))
    case RegistryDomainId => Ok(rec.(registryDomainId := value))
    case RegistrarWhoisServer => Ok(rec.(registrarWhoisServer := value))
    case RegistrarUrl => Ok(rec.(registrarUrl := value))
    case UpdatedDate =>
      (match parseDate(value)
       case Some(d) => Ok(rec.(updatedDate := d))
       case None => Err(DateParseError))
    case CreationDate =>
      (match parseDate(value)
       case Some(d) => Ok(rec.(creationDate := d))
       case None => Err(DateParseError))
    case RegistryExpiryDate =>
      (match parseDate(value)
       case Some(d) => Ok(rec.(registryExpirityDate := d))
       case None => Err(DateParseError))
    case Registrar => Ok(rec.(registrar := value))
    case RegistrarIanaId => Ok(rec.(registrarIanaId := value))
    case RegistrarAbuseContactEmail => Ok(rec.(registrarAbuseEmailContact := value))
    case RegistrarAbuseContactPhone => Ok(rec.(registrarAbusePhoneContact := value))
    case DomainStatus => Ok(rec.(domainStatus := value))
    case NameServer => Ok(rec.(nameservers := rec.nameservers + [value]))
    case Dnssec => Ok(rec.(dnssec := value))
  }

  /**
   * Storing under a key fails exactly for a date the date parser rejects; otherwise
   * it changes that key's field and no other: a text is overwritten, a date replaced
   * by the parsed instant, a name server appended.
   */
  lemma StoreFieldEffect(rec: WhoisInformation, k: Key, value: string, parseDate: DateParser, f: Key)
    ensures StoreField(rec, k, value, parseDate).Err? <==> k.IsDate() && parseDate(value).None?
    ensures StoreField(rec, k, value, parseDate).Ok? ==>
      var r := StoreField(rec, k, value, parseDate).value;
      && (f != k ==> Get(r, f) == Get(rec, f))
      && (f == k && f.IsText() ==> Get(r, f) == Text(value))
      && (f == k && f.IsDate() ==> parseDate(value) == Some(Get(r, f).date))
      && (f == k && f == NameServer ==> r.nameservers == rec.nameservers + [value])
  {
  }

  /** The dispatch on the key text: an unknown key leaves the record as it is. */
  function ApplyEntry(rec: WhoisInformation, key: string, value: string, parseDate: DateParser)
    : Result<WhoisInformation, ParseError>
  {
    match KeyOf(key)
    case None => Ok(rec)
    case Some(k) => StoreField(rec, k, value, parseDate)
  }

  /** A date under its key that the date parser rejects. */
  predicate BadDate(key: string, value: string, parseDate: DateParser) {
    KeyOf(key).Some? && KeyOf(key).value.IsDate() && parseDate(value).None?
  }

  /**
   * A line fails exactly when it holds a rejected date; otherwise the field whose
   * key text equals the line's key takes the value, and every other field keeps
   * what it held.
   */
  lemma ApplyEntryEffect(rec: WhoisInformation, key: string, value: string, parseDate: DateParser, f: Key)
    ensures ApplyEntry(rec, key, value, parseDate).Err? <==> BadDate(key, value, parseDate)
    ensures ApplyEntry(rec, key, value, parseDate).Ok? ==>
      var r := ApplyEntry(rec, key, value, parseDate).value;
      && (key != f.Label() ==> Get(r, f) == Get(rec, f))
      && (key == f.Label() && f.IsText() ==> Get(r, f) == Text(value))
      && (key == f.Label() && f.IsDate() ==> parseDate(value) == Some(Get(r, f).date))
      && (key == f.Label() && f == NameServer ==> r.nameservers == rec.nameservers + [value])
  {
    KeyOfLabel(f);
    if KeyOf(key).Some? {
      StoreFieldEffect(rec, KeyOf(key).value, value, parseDate, f);
    }
  }

  /** The loop as a fold over the lines' entries, stopping at the first error. */
  function ParseEntries(rec: WhoisInformation, es: seq<(string, string)>, parseDate: DateParser)
    : Result<WhoisInformation, ParseError>
    decreases |es|
  {
    if es == [] then Ok(rec)
    else
      match ApplyEntry(rec, es[0].0, es[0].1, parseDate)
      case Err(e) => Err(e)
      case Ok(next) => ParseEntries(next, es[1..], parseDate)
  }

  /** What `parse` returns for `content`. */
  function Parsed(content: string, parseDate: DateParser): Result<WhoisInformation, ParseError> {
    ParseEntries(Default(), Entries(SplitLines(content)), parseDate)
  }

  /** One step of the fold, at position `i` of the entries. */
  lemma ParseEntriesAt(rec: WhoisInformation, es: seq<(string, string)>, i: nat, parseDate: DateParser)
    requires i < |es|
    ensures ParseEntries(rec, es[i..], parseDate) ==
      match ApplyEntry(rec, es[i].0, es[i].1, parseDate)
      case Err(e) => Err(e)
      case Ok(next) => ParseEntries(next, es[i + 1..], parseDate)
  {
    assert es[i..][0] == es[i] && es[i..][1..] == es[i + 1..];
  }

  /**
   * The loop body: the line's key and value from the closure, then the `match` on
   * the key text, which stores the value in the field the key selects.
   */
  method StoreLine(rec: WhoisInformation, line: string, parseDate: DateParser)
    returns (r: Result<WhoisInformation, ParseError>)
    ensures r == ApplyEntry(rec, KeyValue(line).0, KeyValue(line).1, parseDate)
  {
    r := Ok(rec);
    var entry := LineEntry(line);
    if entry.Some? {
      var (key, value) := entry.value;
      match KeyOf(key) {
        case Some(DomainName) => r := Ok(rec.(domainName := value));
        case Some(RegistryDomainId) => r := Ok(rec.(registryDomainId := value));
        case Some(RegistrarWhoisServer) => r := Ok(rec.(registrarWhoisServer := value));
        case Some(RegistrarUrl) => r := Ok(rec.(registrarUrl := value));
        case Some(UpdatedDate) =>
          match parseDate(value) {
            case Some(date) => r := Ok(rec.(updatedDate := date));
            case None => r := Err(DateParseError);
          }
        case Some(CreationDate) =>
          match parseDate(value) {
            case Some(date) => r := Ok(rec.(creationDate := date));
            case None => r := Err(DateParseError);
          }
        case Some(RegistryExpiryDate) =>
          match parseDate(value) {
            case Some(date) => r := Ok(rec.(registryExpirityDate := date));
            case None => r := Err(DateParseError);
          }
        case Some(Registrar) => r := Ok(rec.(registrar := value));
        case Some(RegistrarIanaId) => r := Ok(rec.(registrarIanaId := value));
        case Some(RegistrarAbuseContactEmail) => r := Ok(rec.(registrarAbuseEmailContact := value));
        case Some(RegistrarAbuseContactPhone) => r := Ok(rec.(registrarAbusePhoneContact := value));
        case Some(DomainStatus) => r := Ok(rec.(domainStatus := value));
        case Some(NameServer) => r := Ok(rec.(nameservers := rec.nameservers + [value]));
        case Some(Dnssec) => r := Ok(rec.(dnssec := value));
        case None =>
      }
    }
  }

  /** `Parser::parse`: the record filled line by line from the defaults, or the date error. */
  method Parse(content: string, parseDate: DateParser) returns (r: Result<WhoisInformation, ParseError>)
    ensures r == Parsed(content, parseDate)
  {
    var body := SplitLines(content);
    r := ParseBody(body, parseDate);
  }

  /** The `for line in body` loop of `parse`, over the lines already split. */
  method ParseBody(body: seq<string>, parseDate: DateParser) returns (r: Result<WhoisInformation, ParseError>)
    ensures r == ParseEntries(Default(), Entries(body), parseDate)
  {
    ghost var es := Entries(body);
    var parsed := Default();
    var i := 0;
    assert es[i..] == es;
    while i < |body|
      invariant 0 <= i <= |body|
      invariant ParseEntries(Default(), es, parseDate) == ParseEntries(parsed, es[i..], parseDate)
    {
      ParseEntriesAt(parsed, es, i, parseDate);
      var stored := StoreLine(parsed, body[i], parseDate);
      if stored.Err? {
        return Err(stored.error);
      }
      parsed := stored.value;
      i := i + 1;
    }
    return Ok(parsed);
  }

  /** The values of the entries whose key is `name`, in line order. */
  function ValuesFor(es: seq<(string, string)>, name: string): seq<string>
  {
    if es == [] then []
    else (if es[0].0 == name then [es[0].1] else []) + ValuesFor(es[1..], name)
  }

  /** The values for `name` are exactly the values of the entries keyed `name`. */
  lemma {:induction false} ValuesForMembers(es: seq<(string, string)>, name: string, v: string)
    ensures v in ValuesFor(es, name) <==> exists i :: 0 <= i < |es| && es[i] == (name, v)
    decreases |es|
  {
    if es != [] {
      InValuesFor(es, name, v);
      ValuesForMembers(es[1..], name, v);
      if exists i :: 0 <= i < |es[1..]| && es[1..][i] == (name, v) {
        var i :| 0 <= i < |es[1..]| && es[1..][i] == (name, v);
        assert es[i + 1] == (name, v);
      }
      if exists i :: 0 <= i < |es| && es[i] == (name, v) {
        var i :| 0 <= i < |es| && es[i] == (name, v);
        if i > 0 {
          assert es[1..][i - 1] == (name, v);
        }
      }
    }
  }

  /** A value belongs to the values for `name` when the first entry carries it or a later one does. */
  lemma InValuesFor(es: seq<(string, string)>, name: string, v: string)
    requires es != []
    ensures v in ValuesFor(es, name) <==> es[0] == (name, v) || v in ValuesFor(es[1..], name)
  {
  }

  /** Some date key carries a value the date parser rejects. */
  ghost predicate HasBadDate(es: seq<(string, string)>, parseDate: DateParser) {
    exists k: Key, v :: k.IsDate() && v in ValuesFor(es, k.Label()) && parseDate(v).None?
  }

  lemma HasBadDateCons(es: seq<(string, string)>, parseDate: DateParser)
    requires es != []
    ensures HasBadDate(es, parseDate) <==> BadDate(es[0].0, es[0].1, parseDate) || HasBadDate(es[1..], parseDate)
  {
    var (key, value) := es[0];
    if BadDate(key, value, parseDate) {
      var k := KeyOf(key).value;
      InValuesFor(es, k.Label(), value);
    }
    if HasBadDate(es[1..], parseDate) {
      var k: Key, v :| k.IsDate() && v in ValuesFor(es[1..], k.Label()) && parseDate(v).None?;
      InValuesFor(es, k.Label(), v);
    }
    if HasBadDate(es, parseDate) {
      var k: Key, v :| k.IsDate() && v in ValuesFor(es, k.Label()) && parseDate(v).None?;
      InValuesFor(es, k.Label(), v);
      KeyOfLabel(k);
    }
  }

  /** The fold fails exactly when some date key carries a value the date parser rejects. */
  lemma {:induction false} ParseEntriesFailsIffBadDate(rec: WhoisInformation, es: seq<(string, string)>, parseDate: DateParser)
    ensures ParseEntries(rec, es, parseDate).Err? <==> HasBadDate(es, parseDate)
    decreases |es|
  {
    if es != [] {
      ApplyEntryEffect(rec, es[0].0, es[0].1, parseDate, DomainName);
      HasBadDateCons(es, parseDate);
      if ApplyEntry(rec, es[0].0, es[0].1, parseDate).Ok? {
        ParseEntriesFailsIffBadDate(ApplyEntry(rec, es[0].0, es[0].1, parseDate).value, es[1..], parseDate);
      }
    }
  }

  /** A successful fold has applied its first entry and goes on from the result. */
  lemma ParseEntriesOkStep(rec: WhoisInformation, es: seq<(string, string)>, parseDate: DateParser)
    requires es != [] && ParseEntries(rec, es, parseDate).Ok?
    ensures ApplyEntry(rec, es[0].0, es[0].1, parseDate).Ok?
    ensures ParseEntries(rec, es, parseDate) ==
      ParseEntries(ApplyEntry(rec, es[0].0, es[0].1, parseDate).value, es[1..], parseDate)
  {
  }

  /** The last value of a non-empty tail is the last value of the whole. */
  /** The last value for `name` is the last one after the first entry, or else the first entry's own. */
  lemma ValuesForLast(es: seq<(string, string)>, name: string)
    requires es != []
    ensures var vs, tail := ValuesFor(es, name), ValuesFor(es[1..], name);
      && (tail != [] ==> vs != [] && vs[|vs| - 1] == tail[|tail| - 1])
      && (tail == [] ==> (vs == [] <==> es[0].0 != name) && (vs != [] ==> vs[|vs| - 1] == es[0].1))
  {
    var head: seq<string> := if es[0].0 == name then [es[0].1] else [];
    var tail := ValuesFor(es[1..], name);
    assert ValuesFor(es, name) == head + tail;
    if tail != [] {
      assert (head + tail)[|head + tail| - 1] == tail[|tail| - 1];
    } else {
      assert head + tail == head;
    }
  }

  /**
   * A single-valued text field ends with the value of the last line carrying its
   * key, and keeps what it held when no line carries it.
   */
  lemma {:induction false} ParseEntriesTextLastWins(rec: WhoisInformation, es: seq<(string, string)>, parseDate: DateParser, k: Key)
    requires k.IsText() && ParseEntries(rec, es, parseDate).Ok?
    ensures var vs := ValuesFor(es, k.Label());
      Get(ParseEntries(rec, es, parseDate).value, k) == if vs == [] then Get(rec, k) else Text(vs[|vs| - 1])
    decreases |es|
  {
    if es != [] {
      var (key, value) := es[0];
      ParseEntriesOkStep(rec, es, parseDate);
      ApplyEntryEffect(rec, key, value, parseDate, k);
      var next := ApplyEntry(rec, key, value, parseDate).value;
      ParseEntriesTextLastWins(next, es[1..], parseDate, k);
      ValuesForLast(es, k.Label());
    }
  }

  /**
   * A date field ends with the instant parsed from the last line carrying its
   * key, and keeps what it held when no line carries it.
   */
  lemma {:induction false} ParseEntriesDateLastWins(rec: WhoisInformation, es: seq<(string, string)>, parseDate: DateParser, k: Key)
    requires k.IsDate() && ParseEntries(rec, es, parseDate).Ok?
    ensures var r, vs := ParseEntries(rec, es, parseDate).value, ValuesFor(es, k.Label());
      && (vs == [] ==> Get(r, k) == Get(rec, k))
      && (vs != [] ==> parseDate(vs[|vs| - 1]) == Some(Get(r, k).date))
    decreases |es|
  {
    if es != [] {
      var (key, value) := es[0];
      ParseEntriesOkStep(rec, es, parseDate);
      ApplyEntryEffect(rec, key, value, parseDate, k);
      var next := ApplyEntry(rec, key, value, parseDate).value;
      ParseEntriesDateLastWins(next, es[1..], parseDate, k);
      ValuesForLast(es, k.Label());
    }
  }

  /** Each "name server" line appends its value, in line order. */
  lemma {:induction false} ParseEntriesNameServers(rec: WhoisInformation, es: seq<(string, string)>, parseDate: DateParser)
    requires ParseEntries(rec, es, parseDate).Ok?
    ensures ParseEntries(rec, es, parseDate).value.nameservers == rec.nameservers + ValuesFor(es, "name server")
    decreases |es|
  {
    if es != [] {
      var (key, value) := es[0];
      ParseEntriesOkStep(rec, es, parseDate);
      ApplyEntryEffect(rec, key, value, parseDate, NameServer);
      var next := ApplyEntry(rec, key, value, parseDate).value;
      ParseEntriesNameServers(next, es[1..], parseDate);
      var head: seq<string> := if key == "name server" then [value] else [];
      var tail := ValuesFor(es[1..], "name server");
      assert next.nameservers == rec.nameservers + head by {
        assert Get(next, NameServer).items == next.nameservers;
      }
      calc {
        ParseEntries(rec, es, parseDate).value.nameservers;
        next.nameservers + tail;
        rec.nameservers + head + tail;
        { AppendAssoc(rec.nameservers, head, tail); }
        rec.nameservers + (head + tail);
        rec.nameservers + ValuesFor(es, "name server");
      }
    }
  }

  /** Every key and value the entries carry is lower-case. */
  ghost predicate EntriesLowerCase(es: seq<(string, string)>) {
    forall i :: 0 <= i < |es| ==> IsLowerCase(es[i].0) && IsLowerCase(es[i].1)
  }

  /** The closure lower-cases every line, so the entries of any text are lower-case. */
  lemma EntriesAreLowerCase(lines: seq<string>)
    ensures EntriesLowerCase(Entries(lines))
  {
    var es := Entries(lines);
    forall i | 0 <= i < |es| ensures IsLowerCase(es[i].0) && IsLowerCase(es[i].1) {
      assert es[i] == LineEntry(lines[i]).value;
    }
  }

  /** A line stores a lower-case value, so a lower-case record stays lower-case. */
  lemma ApplyEntryKeepsLowerCase(rec: WhoisInformation, key: string, value: string, parseDate: DateParser)
    requires TextIsLowerCase(rec) && IsLowerCase(value) && ApplyEntry(rec, key, value, parseDate).Ok?
    ensures TextIsLowerCase(ApplyEntry(rec, key, value, parseDate).value)
  {
    var next := ApplyEntry(rec, key, value, parseDate).value;
    forall f: Key | f.IsText() ensures IsLowerCase(Get(next, f).text) {
      ApplyEntryEffect(rec, key, value, parseDate, f);
    }
    ApplyEntryEffect(rec, key, value, parseDate, NameServer);
    forall i | 0 <= i < |next.nameservers| ensures IsLowerCase(next.nameservers[i]) {
      if key == "name server" && i == |rec.nameservers| {
        assert next.nameservers[i] == value;
      }
    }
  }

  /** Every text the fold stores is lower-case. */
  lemma {:induction false} ParseEntriesLowerCase(rec: WhoisInformation, es: seq<(string, string)>, parseDate: DateParser)
    requires TextIsLowerCase(rec) && EntriesLowerCase(es) && ParseEntries(rec, es, parseDate).Ok?
    ensures TextIsLowerCase(ParseEntries(rec, es, parseDate).value)
    decreases |es|
  {
    if es != [] {
      ParseEntriesOkStep(rec, es, parseDate);
      ApplyEntryKeepsLowerCase(rec, es[0].0, es[0].1, parseDate);
      assert EntriesLowerCase(es[1..]) by {
        forall i | 0 <= i < |es| - 1 ensures IsLowerCase(es[1..][i].0) && IsLowerCase(es[1..][i].1) {
          assert es[1..][i] == es[i + 1];
        }
      }
      ParseEntriesLowerCase(ApplyEntry(rec, es[0].0, es[0].1, parseDate).value, es[1..], parseDate);
    }
  }

  /** From the default record, a text field ends with the last value carrying its key, or "". */
  lemma DefaultTextLastWins(es: seq<(string, string)>, parseDate: DateParser, k: Key)
    requires k.IsText() && ParseEntries(Default(), es, parseDate).Ok?
    ensures var vs := ValuesFor(es, k.Label());
      Get(ParseEntries(Default(), es, parseDate).value, k) == Text(if vs == [] then "" else vs[|vs| - 1])
  {
    DefaultFields(k);
    ParseEntriesTextLastWins(Default(), es, parseDate, k);
  }

  /** From the default record, a date field ends with the last instant parsed for its key, or the epoch. */
  lemma DefaultDateLastWins(es: seq<(string, string)>, parseDate: DateParser, k: Key)
    requires k.IsDate() && ParseEntries(Default(), es, parseDate).Ok?
    ensures var r, vs := ParseEntries(Default(), es, parseDate).value, ValuesFor(es, k.Label());
      && (vs == [] ==> Get(r, k) == Date(Epoch))
      && (vs != [] ==> parseDate(vs[|vs| - 1]) == Some(Get(r, k).date))
  {
    DefaultFields(k);
    ParseEntriesDateLastWins(Default(), es, parseDate, k);
  }

  /** From the default record, the name servers are exactly the "name server" values, in order. */
  lemma DefaultNameServers(es: seq<(string, string)>, parseDate: DateParser)
    requires ParseEntries(Default(), es, parseDate).Ok?
    ensures ParseEntries(Default(), es, parseDate).value.nameservers == ValuesFor(es, "name server")
  {
    ParseEntriesNameServers(Default(), es, parseDate);
  }

  /** From the default record, lower-case entries leave every stored text lower-case. */
  lemma DefaultLowerCase(es: seq<(string, string)>, parseDate: DateParser)
    requires EntriesLowerCase(es) && ParseEntries(Default(), es, parseDate).Ok?
    ensures TextIsLowerCase(ParseEntries(Default(), es, parseDate).value)
  {
    DefaultFields(DomainName);
    ParseEntriesLowerCase(Default(), es, parseDate);
  }
}
