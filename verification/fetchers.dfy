/**
 The four ways of reading a target, each reduced to the pure step after its I/O:
 the JSON-RPC and GraphQL replies and the standard output of the shell lookups
 are inputs here. `EmitTarget` dispatches on the target's kind.
 */
module Fetchers {
  import opened Wrappers
  import opened Int64
  import opened Text
  import opened ParseInt
  import opened Json
  import opened Targets

  /** What one HTTP exchange produced: a failed send, a non-success status,
      a body that is not JSON, or the decoded JSON body. */
  datatype Reply =
    | Unreachable(reason: string)
    | ErrorStatus(reason: string)
    | Undecodable(reason: string)
    | Decoded(body: Value)

  const NUMBER_PATH: seq<string> := ["result", "number"]
  const NUMBER_PATH_TEXT: string := ".result.number"
  const HEIGHT_PATH: seq<string> := ["data", "_metadata", "lastProcessedHeight"]
  const HEIGHT_PATH_TEXT: string := ".data._metadata.lastProcessedHeight"

  /** `&hex[2..]` does not panic on the block number of this reply. */
  predicate HexSliceable(reply: Reply)
  {
    reply.Decoded? && At(reply.body, NUMBER_PATH).Str? ==> CanDropTwoBytes(At(reply.body, NUMBER_PATH).s)
  }

  /** The block number text after its first two bytes (normally the `0x`). */
  function HexDigits(body: Value): string
    requires At(body, NUMBER_PATH).Str? && CanDropTwoBytes(At(body, NUMBER_PATH).s)
  {
    DropTwoBytes(At(body, NUMBER_PATH).s)
  }

  /** The pure tail of `node_rpc`: the hexadecimal `result.number` of an
      `eth_getBlockByNumber` reply, without its first two bytes, less `offset`. */
  function NodeHeight(reply: Reply, offset: i64): (r: Result<i64, MError>)
    requires HexSliceable(reply)
    ensures !reply.Decoded? ==> r == Err(Reqwest(reply.reason))
    ensures reply.Decoded? && !At(reply.body, NUMBER_PATH).Str? ==>
      r == Err(ParseJson(NUMBER_PATH_TEXT, reply.body))
    ensures r.Ok? <==> reply.Decoded? && At(reply.body, NUMBER_PATH).Str? && Parses(HexDigits(reply.body), 16)
    ensures r.Ok? ==> r.value == Wrap(Denoted(HexDigits(reply.body), 16) - offset)
    ensures r.Ok? && InRange(Denoted(HexDigits(reply.body), 16) - offset) ==>
      r.value == Denoted(HexDigits(reply.body), 16) - offset
    ensures reply.Decoded? && At(reply.body, NUMBER_PATH).Str? && !Parses(HexDigits(reply.body), 16) ==>
      r == Err(ParseHex(FromStrRadix(HexDigits(reply.body), 16).error))
    ensures r.Err? && r.error.ParseHex? ==> (r.error.kind == Empty <==> HexDigits(reply.body) == "")
  {
    if !reply.Decoded? then Err(Reqwest(reply.reason))
    else
      match AsStr(At(reply.body, NUMBER_PATH))
      case None => Err(ParseJson(NUMBER_PATH_TEXT, reply.body))
      case Some(hex) =>
        match FromStrRadix(DropTwoBytes(hex), 16)
        case Ok(v) => Ok(Wrap(v - offset))
        case Err(kind) => Err(ParseHex(kind))
  }

  /** Whatever the first two ASCII characters are, the rest is read as the
      hexadecimal height: `0x`, `ab` and `!?` are all accepted as prefixes. */
  lemma NodeHeightOfHex(prefix: string, v: nat, offset: i64, body: Value)
    requires |prefix| == 2 && prefix[0] as int < 0x80 && prefix[1] as int < 0x80
    requires v <= MAX
    requires At(body, NUMBER_PATH) == Str(prefix + Digits(v, 16))
    ensures HexSliceable(Decoded(body))
    ensures NodeHeight(Decoded(body), offset) == Ok(Wrap(v - offset))
    ensures InRange(v - offset) ==> NodeHeight(Decoded(body), offset) == Ok(v - offset)
  {
  }

  /** The reply `{"result": {"number": "0x10"}}` with offset 2 reads 14. */
  lemma NodeHeightExample()
    ensures NodeHeight(Decoded(Nest(NUMBER_PATH, Str("0x10"))), 2) == Ok(14)
  {
    var body := Nest(NUMBER_PATH, Str("0x10"));
    AtNest(NUMBER_PATH, Str("0x10"));
    assert Digits(16, 16) == "10" by {
      assert Digits(1, 16) == "1";
      assert DigitChar(0, 16) == '0';
    }
    NodeHeightOfHex("0x", 16, 2, body);
  }

  /** The reply `{"result": {"number": "0x3e8"}}` with offset 0 reads 1000. */
  lemma NodeHeightThousand()
    ensures HexSliceable(Decoded(Nest(NUMBER_PATH, Str("0x3e8"))))
    ensures NodeHeight(Decoded(Nest(NUMBER_PATH, Str("0x3e8"))), 0) == Ok(1000)
  {
    var body := Nest(NUMBER_PATH, Str("0x3e8"));
    AtNest(NUMBER_PATH, Str("0x3e8"));
    assert Digits(1000, 16) == "3e8" by {
      assert Digits(3, 16) == "3";
      assert Digits(62, 16) == Digits(3, 16) + [DigitChar(14, 16)];
    }
    NodeHeightOfHex("0x", 1000, 0, body);
  }

  /** `from_str_radix` accepts a sign, so `0x-10` reads as -16: a negative height. */
  lemma NodeHeightSignedHex()
    ensures HexSliceable(Decoded(Nest(NUMBER_PATH, Str("0x-10"))))
    ensures NodeHeight(Decoded(Nest(NUMBER_PATH, Str("0x-10"))), 0) == Ok(-16)
  {
    AtNest(NUMBER_PATH, Str("0x-10"));
    assert DropTwoBytes("0x-10") == "-10";
    assert "-10"[1..] == "10";
    assert Magnitude("10", 16) == 16 by {
      assert Horner(0, "10", 16) == Horner(1, "0", 16);
      assert "10"[1..] == "0" && "0"[1..] == "";
    }
  }

  /** A reply whose `result` has no `number` member is a shape error carrying the reply. */
  lemma NodeHeightMissingNumber(body: Value, offset: i64)
    requires !Member(body, "result").Object? || "number" !in Member(body, "result").members
    ensures NodeHeight(Decoded(body), offset) == Err(ParseJson(NUMBER_PATH_TEXT, body))
  {
  }

  /** The pure tail of `graphql_rpc`: `data._metadata.lastProcessedHeight` when it is an `i64`. */
  function GraphqlHeight(reply: Reply): (r: Result<i64, MError>)
    ensures !reply.Decoded? ==> r == Err(Reqwest(reply.reason))
    ensures r.Ok? <==> reply.Decoded? && At(reply.body, HEIGHT_PATH).Int? && InRange(At(reply.body, HEIGHT_PATH).n)
    ensures r.Ok? ==> r.value == At(reply.body, HEIGHT_PATH).n
    ensures reply.Decoded? && r.Err? ==> r.error == ParseJson(HEIGHT_PATH_TEXT, reply.body)
  {
    if !reply.Decoded? then Err(Reqwest(reply.reason))
    else
      match AsI64(At(reply.body, HEIGHT_PATH))
      case Some(n) => Ok(n)
      case None => Err(ParseJson(HEIGHT_PATH_TEXT, reply.body))
  }

  /** `{"data": {"_metadata": {"lastProcessedHeight": n}}}` reads `n`. */
  lemma GraphqlHeightOfNest(n: i64)
    ensures GraphqlHeight(Decoded(Nest(HEIGHT_PATH, Int(n)))) == Ok(n)
  {
  }

  /** A reply without a `data` member is a shape error carrying the reply. */
  lemma GraphqlHeightMissingData(body: Value)
    requires !body.Object? || "data" !in body.members
    ensures GraphqlHeight(Decoded(body)) == Err(ParseJson(HEIGHT_PATH_TEXT, body))
  {
  }

  /** A height that serde_json stores as a float, such as `-0`, is a shape error:
      `as_i64` does not read floats. */
  lemma GraphqlHeightFloat(literal: string)
    ensures var body := Nest(HEIGHT_PATH, Float(literal));
      GraphqlHeight(Decoded(body)) == Err(ParseJson(HEIGHT_PATH_TEXT, body))
  {
    AtNest(HEIGHT_PATH, Float(literal));
  }

  /** The pure tail of `uploaded`: the trimmed output of the config-map lookup as a
      decimal `i64`, and 0 for anything else. It never fails. */
  function Uploaded(stdout: string): (n: i64)
    ensures Parses(Trim(stdout), 10) ==> n == Denoted(Trim(stdout), 10)
    ensures !Parses(Trim(stdout), 10) ==> n == 0
  {
    match FromStrRadix(Trim(stdout), 10)
    case Ok(v) => v
    case Err(_) => 0
  }

  /** The pure tail of `uploaded_in_redis`: the output trimmed, then stripped of
      every `"`, as a decimal `i64`, and 0 for anything else. It never fails. */
  function UploadedInRedis(stdout: string): (n: i64)
    ensures Parses(RemoveAll(Trim(stdout), '"'), 10) ==> n == Denoted(RemoveAll(Trim(stdout), '"'), 10)
    ensures !Parses(RemoveAll(Trim(stdout), '"'), 10) ==> n == 0
  {
    match FromStrRadix(RemoveAll(Trim(stdout), '"'), 10)
    case Ok(v) => v
    case Err(_) => 0
  }

  /** Whitespace around a number printed by the config-map lookup is ignored. */
  lemma {:induction false} UploadedRoundTrip(pre: string, n: i64, post: string)
    requires AllWhitespace(pre) && AllWhitespace(post)
    ensures Uploaded(pre + FormatDecimal(n) + post) == n
  {
    FormatDecimalChars(n);
    TrimPadded(pre, FormatDecimal(n), post);
    ParseFormatDecimal(n);
  }

  /** A quoted number with whitespace around the quotes reads as that number. */
  lemma {:induction false} UploadedInRedisRoundTrip(pre: string, n: i64, post: string)
    requires AllWhitespace(pre) && AllWhitespace(post)
    ensures UploadedInRedis(pre + "\"" + FormatDecimal(n) + "\"" + post) == n
  {
    var x := "\"" + FormatDecimal(n) + "\"";
    assert pre + "\"" + FormatDecimal(n) + "\"" + post == pre + x + post;
    assert x[0] == '"' && x[|x| - 1] == '"';
    TrimPadded(pre, x, post);
    QuotedNumberUnquotes(n);
    ParseFormatDecimal(n);
  }

  /** Removing the quotes around a decimal rendering gives the rendering back. */
  lemma QuotedNumberUnquotes(n: i64)
    ensures RemoveAll("\"" + FormatDecimal(n) + "\"", '"') == FormatDecimal(n)
  {
    var q: string := "\"";
    FormatDecimalChars(n);
    RemoveAllConcat(q + FormatDecimal(n), q, '"');
    RemoveAllConcat(q, FormatDecimal(n), '"');
    RemoveAllAbsent(FormatDecimal(n), '"');
    assert RemoveAll(q, '"') == "";
  }

  /** Whitespace inside the quotes is not trimmed, so a quoted text that starts
      with whitespace, such as `" 5"` with its quotes, reads 0. */
  lemma UploadedInRedisInnerSpace(x: string)
    requires |x| > 0 && IsWhitespace(x[0])
    ensures UploadedInRedis("\"" + x + "\"") == 0
  {
    QuotedIsTrimmed(x);
    UnquotedKeepsFirst(x);
    LeadingWhitespaceNotNumber(RemoveAll(x, '"'));
  }

  /** A text between two quotes has no whitespace at its ends, so trimming keeps it. */
  lemma QuotedIsTrimmed(x: string)
    ensures Trim("\"" + x + "\"") == "\"" + x + "\""
  {
  }

  /** Removing the quotes around a text that starts with whitespace leaves that
      whitespace first. */
  lemma UnquotedKeepsFirst(x: string)
    requires |x| > 0 && IsWhitespace(x[0])
    ensures var y := RemoveAll("\"" + x + "\"", '"');
      y == RemoveAll(x, '"') && |y| > 0 && IsWhitespace(y[0])
  {
    var q: string := "\"";
    RemoveAllConcat(q + x, q, '"');
    RemoveAllConcat(q, x, '"');
    assert RemoveAll(q, '"') == "";
    WhitespaceIsNotNumeric(x[0]);
    assert RemoveAll(x, '"')[0] == x[0];
  }

  /** No whitespace character is a quote, a sign or a decimal digit. */
  lemma WhitespaceIsNotNumeric(c: char)
    requires IsWhitespace(c)
    ensures c != '"' && c != '+' && c != '-' && !IsDigit(c, 10)
  {
  }

  /** Text that starts with whitespace is not a decimal number. */
  lemma LeadingWhitespaceNotNumber(y: string)
    requires |y| > 0 && IsWhitespace(y[0])
    ensures !Parses(y, 10)
  {
  }

  /** Output that is not a number, such as nothing at all, reads 0 rather than failing. */
  lemma ShellReadersDefaultToZero(stdout: string)
    requires AllWhitespace(stdout)
    ensures Uploaded(stdout) == 0 && UploadedInRedis(stdout) == 0
  {
  }

  /** What the I/O of one target produced: an HTTP reply or a command's standard output. */
  datatype Observation = HttpReply(reply: Reply) | ShellOutput(stdout: string)

  /** The observation is the kind this target's reader performs, and nothing the
      reader unwraps (optional fields, the two-byte slice) is missing. */
  predicate Ready(t: Target, obs: Observation)
  {
    && Configured(t)
    && match t.kind
       case ChainNode => obs.HttpReply? && HexSliceable(obs.reply)
       case DictEntry => obs.HttpReply?
       case CfgMapKey => obs.ShellOutput?
       case RedisKey => obs.ShellOutput?
  }

  /** The reading of one target, chosen by its kind: each kind goes to its own
      reader, and the shell readers never fail. */
  function Fetch(t: Target, obs: Observation): (r: Result<i64, MError>)
    requires Ready(t, obs)
    ensures t.kind == ChainNode ==> r == NodeHeight(obs.reply, t.blockLabelOffset.value)
    ensures t.kind == DictEntry ==> r == GraphqlHeight(obs.reply)
    ensures t.kind == CfgMapKey ==> r == Ok(Uploaded(obs.stdout))
    ensures t.kind == RedisKey ==> r == Ok(UploadedInRedis(obs.stdout))
  {
    match t.kind
    case ChainNode => NodeHeight(obs.reply, t.blockLabelOffset.value)
    case DictEntry => GraphqlHeight(obs.reply)
    case CfgMapKey => Ok(Uploaded(obs.stdout))
    case RedisKey => Ok(UploadedInRedis(obs.stdout))
  }

  /** `emit_target`: the target with its reading attached, or the reader's error.
      Only the network readers can fail; a success changes nothing but `result`. */
  function EmitTarget(t: Target, obs: Observation): (r: Result<Target, MError>)
    requires Ready(t, obs)
    ensures r.Ok? ==> r.value.result.Some? && r.value == t.(result := r.value.result)
    ensures t.kind == CfgMapKey || t.kind == RedisKey ==> r.Ok?
    ensures r.Err? ==> t.kind == ChainNode || t.kind == DictEntry
    ensures r.Ok? <==> Fetch(t, obs).Ok?
    ensures r.Ok? ==> r.value.result == Some(Fetch(t, obs).value)
    ensures r.Err? ==> r.error == Fetch(t, obs).error
  {
    match Fetch(t, obs)
    case Ok(n) => Ok(t.(result := Some(n)))
    case Err(e) => Err(e)
  }

  /** A config-map or Redis target whose lookup printed a number (quoted, for Redis),
      with whitespace around it, gets exactly that number attached and nothing else changed. */
  lemma EmitTargetShellReading(t: Target, pre: string, n: i64, post: string)
    requires Configured(t) && (t.kind == CfgMapKey || t.kind == RedisKey)
    requires AllWhitespace(pre) && AllWhitespace(post)
    ensures var out := if t.kind == RedisKey then pre + "\"" + FormatDecimal(n) + "\"" + post
                       else pre + FormatDecimal(n) + post;
      EmitTarget(t, ShellOutput(out)) == Ok(t.(result := Some(n)))
  {
    if t.kind == RedisKey {
      UploadedInRedisRoundTrip(pre, n, post);
    } else {
      UploadedRoundTrip(pre, n, post);
    }
  }

  /** A lookup whose command is missing or fails leaves standard output empty, and the
      target then succeeds with reading 0 rather than an error. */
  lemma EmitTargetEmptyOutput(t: Target)
    requires Configured(t) && (t.kind == CfgMapKey || t.kind == RedisKey)
    ensures EmitTarget(t, ShellOutput("")) == Ok(t.(result := Some(0)))
  {
    ShellReadersDefaultToZero("");
  }
}
