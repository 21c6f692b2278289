/**
 The two comma-separated argument parsers: a GraphQL target `LABEL,URL` and a
 chain-node target `LABEL,BLOCK LABEL,BLOCK OFFSET,URL`. URLs are kept as text.
 */
module Args {
  import opened Wrappers
  import opened Int64
  import opened Text
  import opened ParseInt

  const GQ_USAGE: string := "must be a pair {TARGET LABEL},{URL}"
  const NODE_USAGE: string :=
    "No enough info for node rpc target {TARGET LABEL},{BLOCK LABEL},{BLOCK OFFSET},{URL}"

  /** `parse_gq_target`: exactly two comma-separated fields, label then URL. */
  function ParseGqTarget(s: string): (r: Result<(string, string), string>)
    ensures r.Ok? <==> Count(s, ',') == 1
    ensures r.Ok? ==> ',' !in r.value.0 && ',' !in r.value.1 && s == r.value.0 + "," + r.value.1
    ensures r.Err? ==> r.error == GQ_USAGE
  {
    var parts := Split(s, ',');
    if |parts| != 2 then Err(GQ_USAGE)
    else
      assert Join(parts[1..], ',') == parts[1];
      Ok((parts[0], parts[1]))
  }

  /** Any comma-free label and URL survive being joined and parsed back. */
  lemma {:induction false} GqTargetRoundTrip(targetLabel: string, url: string)
    requires ',' !in targetLabel && ',' !in url
    ensures ParseGqTarget(targetLabel + "," + url) == Ok((targetLabel, url))
  {
    var parts := [targetLabel, url];
    assert Join(parts[1..], ',') == url;
    assert Join(parts, ',') == targetLabel + "," + url;
    SplitJoin(parts, ',');
  }

  /** The offset field of a node target, when the text has four fields. */
  function OffsetField(s: string): string
    requires |Split(s, ',')| == 4
  {
    Split(s, ',')[2]
  }

  /** `parse_node_target`: exactly four comma-separated fields; the third is a
      decimal `i64` (its `unwrap` is the precondition). */
  function ParseNodeTarget(s: string): (r: Result<(string, string, i64, string), string>)
    requires |Split(s, ',')| == 4 ==> FromStrRadix(OffsetField(s), 10).Ok?
    ensures r.Ok? <==> Count(s, ',') == 3
    ensures r.Ok? ==>
      && ',' !in r.value.0 && ',' !in r.value.1 && ',' !in r.value.3
      && Parses(OffsetField(s), 10) && r.value.2 == Denoted(OffsetField(s), 10)
      && s == r.value.0 + "," + r.value.1 + "," + OffsetField(s) + "," + r.value.3
    ensures r.Err? ==> r.error == NODE_USAGE
  {
    var parts := Split(s, ',');
    if |parts| != 4 then Err(NODE_USAGE)
    else
      assert Join(parts[3..], ',') == parts[3];
      assert parts[2..][1..] == parts[3..];
      assert parts[1..][1..] == parts[2..];
      assert Join(parts[2..], ',') == parts[2] + "," + parts[3];
      assert Join(parts[1..], ',') == parts[1] + "," + (parts[2] + "," + parts[3]);
      assert s == parts[0] + "," + (parts[1] + "," + (parts[2] + "," + parts[3]));
      Ok((parts[0], parts[1], FromStrRadix(parts[2], 10).value, parts[3]))
  }

  /** Comma-free labels and URL and any offset, rendered in decimal, parse back. */
  lemma {:induction false} NodeTargetRoundTrip(targetLabel: string, blockLabel: string, offset: i64, url: string)
    requires ',' !in targetLabel && ',' !in blockLabel && ',' !in url
    ensures var s := targetLabel + "," + blockLabel + "," + FormatDecimal(offset) + "," + url;
      && Split(s, ',') == [targetLabel, blockLabel, FormatDecimal(offset), url]
      && FromStrRadix(FormatDecimal(offset), 10) == Ok(offset)
      && ParseNodeTarget(s) == Ok((targetLabel, blockLabel, offset, url))
  {
    var text := FormatDecimal(offset);
    FormatDecimalChars(offset);
    var parts := [targetLabel, blockLabel, text, url];
    assert Join(parts[3..], ',') == url;
    assert Join(parts[2..], ',') == text + "," + url;
    assert Join(parts[1..], ',') == blockLabel + "," + text + "," + url;
    assert Join(parts, ',') == targetLabel + "," + blockLabel + "," + text + "," + url;
    SplitJoin(parts, ',');
    ParseFormatDecimal(offset);
  }
}
