/**
 * The WHOIS client of crates/webapp/src/lib.rs: a lookup sends the domain and
 * "\r\n" to a server and reads back its whole reply as UTF-8; a query asks the
 * configured server first, follows the "whois:" referral in its reply, and asks
 * the referred host, on the configured port, a second time.
 */
module WhoisClient {
  import opened Wrappers
  import opened Strings
  import opened Utf8

  /** The configuration: the first server, as "host:port", and the domain to look up. */
  datatype WhoisOpt = WhoisOpt(whoisServer: string, domain2lookup: string)

  datatype Whois = Whois(target: WhoisOpt)

  /** `Whois::new`: keeps the configuration as given. */
  function New(opt: WhoisOpt): (w: Whois)
    ensures w.target == opt
  {
    Whois(opt)
  }

  /** The errors of the crate's own `WhoisError` enum, with their context texts. */
  datatype WhoisError = WhoisServerIO(ctx: string) | GeneralErr(ctx: string) | MissingNewline

  const NoResponse := "Wrote to WHOIS server, but got no response"
  const NoReferral := "could not find whois server to lookup"
  const NotHostPort := "whois server should be in host:port format"

  /** Which socket operation failed: `connect`, `write` or `read_to_end`. */
  datatype IoError = ConnectFailed | WriteFailed | ReadFailed

  /** Every error a query can return: socket I/O, a reply that is not UTF-8, or a `WhoisError`. */
  datatype QueryError = IoFailure(io: IoError) | Utf8Failure | WhoisFailure(err: WhoisError)

  /**
   * The network: the `conn`-th connection of a query (0 for the configured server,
   * 1 for the referred host) connects to an address, writes the request bytes and
   * reads to the end. It gives the reply bytes, or the operation that failed. Each
   * connection is its own exchange, even when two of them reach the same address.
   */
  type Network = (nat, string, seq<byte>) -> Result<seq<byte>, IoError>

  /** The bytes a lookup writes: the domain and a CR LF line ending. */
  function Request(domain: string): (bs: seq<byte>)
    ensures bs == Encode(domain) + [13, 10]
    ensures Decode(bs) == Some(domain + "\r\n")
  {
    EncodeAppend(domain, "\r\n");
    DecodeEncode(domain + "\r\n");
    Encode(domain + "\r\n")
  }

  /** The checks `lookup` makes on the bytes read: not empty, and valid UTF-8. */
  function CheckReply(data: seq<byte>): (r: Result<string, QueryError>)
    ensures data == [] ==> r == Err(WhoisFailure(WhoisServerIO(NoResponse)))
    ensures data != [] ==> (r.Ok? || r == Err(Utf8Failure))
    ensures r.Ok? ==> Encode(r.value) == data
  {
    if |data| == 0 then Err(WhoisFailure(WhoisServerIO(NoResponse)))
    else
      match Decode(data)
      case None => Err(Utf8Failure)
      case Some(s) => Ok(s)
  }

  /** A non-empty reply is accepted exactly when it is the encoding of some text, and gives that text. */
  lemma CheckReplyAccepts(data: seq<byte>, s: string)
    requires data != []
    ensures CheckReply(data) == Ok(s) <==> data == Encode(s)
  {
    DecodeSucceedsIffEncoding(data, s);
  }

  /** `Whois::lookup`: one exchange with `server`, on connection `conn`, then the reply checks. */
  function Lookup(net: Network, conn: nat, server: string, domain: string): (r: Result<string, QueryError>)
    ensures net(conn, server, Request(domain)).Err? ==> r == Err(IoFailure(net(conn, server, Request(domain)).error))
    ensures net(conn, server, Request(domain)).Ok? ==> r == CheckReply(net(conn, server, Request(domain)).value)
    ensures r.Ok? ==> net(conn, server, Request(domain)).Ok? && Encode(r.value) == net(conn, server, Request(domain)).value
    ensures r.Ok? ==> r.value != []
  {
    match net(conn, server, Request(domain))
    case Err(e) => Err(IoFailure(e))
    case Ok(data) => CheckReply(data)
  }

  /**
   * The referral in the first reply: the text after the first "whois:", trimmed,
   * up to its first "\n".
   */
  function Referral(q1: string): (r: Result<string, WhoisError>)
    ensures r == Err(GeneralErr(NoReferral)) <==> forall j :: !OccursAt(q1, "whois:", j)
    ensures r.Ok? ==> '\n' !in r.value
  {
    match SplitOnce(q1, "whois:")
    case None => Err(GeneralErr(NoReferral))
    case Some((_, b)) =>
      SplitOnceChar(Trim(b), '\n');
      match SplitOnce(Trim(b), "\n")
      case None => Err(MissingNewline)
      case Some((host, _)) => Ok(host)
  }

  /**
   * With `b` the text after the first "whois:" of the reply, the referral is the
   * trimmed `b` up to its first newline, or `MissingNewline` when it has none.
   */
  lemma ReferralAfterMarker(q1: string, a: string, b: string)
    requires q1 == a + "whois:" + b
    requires forall j :: 0 <= j < |a| ==> !OccursAt(q1, "whois:", j)
    ensures '\n' !in Trim(b) ==> Referral(q1) == Err(MissingNewline)
    ensures '\n' in Trim(b) ==>
      && Referral(q1).Ok?
      && var host := Referral(q1).value;
      && |host| < |Trim(b)| && Trim(b)[..|host|] == host && Trim(b)[|host|] == '\n'
  {
    SplitOnceFirst(q1, "whois:", a, b);
    SplitOnceChar(Trim(b), '\n');
  }

  /**
   * Trimming happens before the cut at the newline, so a referral line that ends
   * in CR LF leaves its carriage return on the host.
   */
  lemma ReferralKeepsCarriageReturn(q1: string, a: string, b: string, host: string, rest: string)
    requires q1 == a + "whois:" + b
    requires forall j :: 0 <= j < |a| ==> !OccursAt(q1, "whois:", j)
    requires Trim(b) == host + "\r\n" + rest && '\n' !in host
    ensures Referral(q1) == Ok(host + "\r")
  {
    ReferralAfterMarker(q1, a, b);
    FirstLineOfCrlf(Trim(b), Referral(q1).value, host, rest);
  }

  /** The text before the first newline of `host + "\r\n" + rest` is `host + "\r"`. */
  lemma FirstLineOfCrlf(t: string, h: string, host: string, rest: string)
    requires t == host + "\r\n" + rest && '\n' !in host
    requires |h| < |t| && t[..|h|] == h && t[|h|] == '\n' && '\n' !in h
    ensures h == host + "\r"
  {
    assert t == h + "\n" + t[|h| + 1..] by {
      assert t == t[..|h|] + [t[|h|]] + t[|h| + 1..];
    }
    assert t == (host + "\r") + "\n" + rest;
    assert '\n' !in host + "\r";
    SplitPrefixUnique(h, t[|h| + 1..], host + "\r", rest, '\n');
  }

  /** The port of the configured "host:port": everything after its first ':'. */
  function Port(server: string): (r: Result<string, WhoisError>)
    ensures r == Err(GeneralErr(NotHostPort)) <==> ':' !in server
    ensures r.Ok? ==> |r.value| < |server|
    ensures r.Ok? ==>
      var host := server[..|server| - |r.value| - 1];
      server == host + ":" + r.value && ':' !in host
  {
    SplitOnceChar(server, ':');
    match SplitOnce(server, ":")
    case None => Err(GeneralErr(NotHostPort))
    case Some((host, port)) =>
      assert server[..|server| - |port| - 1] == host;
      Ok(port)
  }

  /** Composing a host and a port gives back that port. */
  lemma PortOfHostPort(host: string, port: string)
    requires ':' !in host
    ensures Port(host + ":" + port) == Ok(port)
  {
    var server := host + ":" + port;
    forall j | 0 <= j < |host|
      ensures !OccursAt(server, ":", j)
    {
      assert server[j..j + 1] == [host[j]];
    }
    SplitOnceFirst(server, ":", host, port);
  }

  /** `Whois::query`: the lookup at the configured server, then one at the referred host. */
  function Query(w: Whois, net: Network): (r: Result<string, QueryError>)
    ensures r.Ok? ==> r.value != [] && Lookup(net, 0, w.target.whoisServer, w.target.domain2lookup).Ok?
    ensures r.Err? && r.error.WhoisFailure? ==>
      r.error.err in [WhoisServerIO(NoResponse), GeneralErr(NoReferral), MissingNewline, GeneralErr(NotHostPort)]
  {
    var opt := w.target;
    match Lookup(net, 0, opt.whoisServer, opt.domain2lookup)
    case Err(e) => Err(e)
    case Ok(q1) =>
      match Referral(q1)
      case Err(e) => Err(WhoisFailure(e))
      case Ok(host) =>
        match Port(opt.whoisServer)
        case Err(e) => Err(WhoisFailure(e))
        case Ok(port) => Lookup(net, 1, host + ":" + port, opt.domain2lookup)
  }

  /**
   * A successful query made exactly two exchanges, both for the configured domain:
   * the first at the configured server, the second at the referred host on the
   * configured port. Its result is the second reply, taken as it is, with no
   * further referral followed.
   */
  lemma QuerySucceeds(w: Whois, net: Network)
    requires Query(w, net).Ok?
    ensures var opt := w.target;
      var req := Request(opt.domain2lookup);
      && net(0, opt.whoisServer, req).Ok?
      && CheckReply(net(0, opt.whoisServer, req).value).Ok?
      && var q1 := CheckReply(net(0, opt.whoisServer, req).value).value;
      && Referral(q1).Ok? && Port(opt.whoisServer).Ok?
      && var second := Referral(q1).value + ":" + Port(opt.whoisServer).value;
      && net(1, second, req).Ok?
      && Encode(Query(w, net).value) == net(1, second, req).value
  {
  }

  /**
   * The converse: when the first reply is the encoding of a text with a referral,
   * the server is "host:port", and the second reply is the encoding of a non-empty
   * text, the query returns that text.
   */
  lemma QuerySucceedsWhen(w: Whois, net: Network, q1: string, s: string)
    requires var opt := w.target; var req := Request(opt.domain2lookup);
      && q1 != [] && net(0, opt.whoisServer, req) == Ok(Encode(q1))
      && Referral(q1).Ok? && Port(opt.whoisServer).Ok?
      && s != [] && net(1, Referral(q1).value + ":" + Port(opt.whoisServer).value, req) == Ok(Encode(s))
    ensures Query(w, net) == Ok(s)
  {
    assert |Encode(q1)| > 0 && |Encode(s)| > 0;
    CheckReplyAccepts(Encode(q1), q1);
    CheckReplyAccepts(Encode(s), s);
  }

  /**
   * Only those two exchanges matter: networks that answer the first request and
   * every possible second address alike give the same result.
   */
  lemma QueryDependsOnTwoExchanges(w: Whois, n1: Network, n2: Network)
    requires var opt := w.target;
      n1(0, opt.whoisServer, Request(opt.domain2lookup)) == n2(0, opt.whoisServer, Request(opt.domain2lookup))
    requires var opt := w.target; var req := Request(opt.domain2lookup);
      Port(opt.whoisServer).Ok? ==>
        forall host: string :: '\n' !in host ==>
          n1(1, host + ":" + Port(opt.whoisServer).value, req) == n2(1, host + ":" + Port(opt.whoisServer).value, req)
    ensures Query(w, n1) == Query(w, n2)
  {
  }

  /**
   * The order of the checks: a failed first lookup is reported whatever the
   * configured server looks like; then a reply without "whois:"; then a referral
   * without a newline; and only then a server that is not "host:port". When all
   * of these pass, the query is the lookup at the referred host on the configured
   * port, with its own empty-reply, I/O and UTF-8 errors.
   */
  lemma QueryErrorOrder(w: Whois, net: Network)
    ensures var opt := w.target; var first := Lookup(net, 0, opt.whoisServer, opt.domain2lookup);
      first.Err? ==> Query(w, net) == first
    ensures var opt := w.target; var first := Lookup(net, 0, opt.whoisServer, opt.domain2lookup);
      first.Ok? && (forall j :: !OccursAt(first.value, "whois:", j)) ==>
        Query(w, net) == Err(WhoisFailure(GeneralErr(NoReferral)))
    ensures var opt := w.target; var first := Lookup(net, 0, opt.whoisServer, opt.domain2lookup);
      first.Ok? && Referral(first.value) == Err(MissingNewline) ==>
        Query(w, net) == Err(WhoisFailure(MissingNewline))
    ensures var opt := w.target; var first := Lookup(net, 0, opt.whoisServer, opt.domain2lookup);
      first.Ok? && Referral(first.value).Ok? && ':' !in opt.whoisServer ==>
        Query(w, net) == Err(WhoisFailure(GeneralErr(NotHostPort)))
    ensures var opt := w.target; var first := Lookup(net, 0, opt.whoisServer, opt.domain2lookup);
      first.Ok? && Referral(first.value).Ok? && Port(opt.whoisServer).Ok? ==>
        Query(w, net) == Lookup(net, 1, Referral(first.value).value + ":" + Port(opt.whoisServer).value, opt.domain2lookup)
  {
  }
}
