/** The textual form in which a Query row stores its Seeding and its Pipeline.

    Both are ordered lists of operations: a seeding operation is a seed type with its node
    references, a pipeline step is a transformation name with its arguments. The library that
    owns the real encoding is not part of this model, so the model fixes a concrete, lossless
    one: `[` + one entry per operation + `]`, each entry being two netstrings (the name, then the
    netstring list of the arguments), a netstring being `<decimal length>:<payload>`. Like the
    real JSON form, the encoding of an empty list is non-empty text. */
module Codec {
  import opened Wrappers
  import Text

  /** One seeding operation or one pipeline step. */
  datatype Op = Op(name: string, args: seq<string>)

  function Netstring(s: string): (t: string)
    ensures |s| < |t|
  {
    Text.NatToString(|s|) + ":" + s
  }

  /** The index of the first `c` in `t`, if any. */
  function IndexOf(t: string, c: char): (r: Option<nat>)
    ensures r.Some? ==> r.value < |t| && t[r.value] == c
    ensures r.Some? ==> forall k :: 0 <= k < r.value ==> t[k] != c
    ensures r.None? ==> forall k :: 0 <= k < |t| ==> t[k] != c
  {
    if |t| == 0 then None
    else if t[0] == c then Some(0)
    else match IndexOf(t[1..], c)
      case None => None
      case Some(i) => Some(i + 1)
  }

  /** Splits one netstring off the front of `t`: its payload and the text after it. */
  function ReadNetstring(t: string): (r: Option<(string, string)>)
    ensures r.Some? ==> |r.value.1| < |t|
  {
    match IndexOf(t, ':')
    case None => None
    case Some(i) =>
      var digits := t[..i];
      if |digits| == 0 || !Text.AllDigits(digits) then None
      else
        var n := Text.DigitsValue(digits);
        if |t| < i + 1 + n then None else Some((t[i + 1..i + 1 + n], t[i + 1 + n..]))
  }

  lemma ReadNetstringOf(s: string, rest: string)
    ensures ReadNetstring(Netstring(s) + rest) == Some((s, rest))
  {
    var d := Text.NatToString(|s|);
    var t := Netstring(s) + rest;
    assert t == d + ":" + s + rest;
    assert forall k :: 0 <= k < |d| ==> t[k] == d[k] && t[k] != ':';
    assert t[|d|] == ':';
    assert IndexOf(t, ':') == Some(|d|);
    assert t[..|d|] == d;
    Text.DigitsValueOfNatToString(|s|);
    assert t[|d| + 1..|d| + 1 + |s|] == s;
    assert t[|d| + 1 + |s|..] == rest;
  }

  /** A list of strings as concatenated netstrings. */
  function EncodeStrings(xs: seq<string>): string {
    if |xs| == 0 then "" else Netstring(xs[0]) + EncodeStrings(xs[1..])
  }

  function DecodeStrings(t: string): Option<seq<string>>
    decreases |t|
  {
    if |t| == 0 then Some([])
    else match ReadNetstring(t)
      case None => None
      case Some((x, rest)) =>
        match DecodeStrings(rest)
        case None => None
        case Some(xs) => Some([x] + xs)
  }

  lemma {:induction false} DecodeEncodeStrings(xs: seq<string>)
    ensures DecodeStrings(EncodeStrings(xs)) == Some(xs)
  {
    if |xs| > 0 {
      ReadNetstringOf(xs[0], EncodeStrings(xs[1..]));
      DecodeEncodeStrings(xs[1..]);
      assert [xs[0]] + xs[1..] == xs;
    }
  }

  function EncodeOp(op: Op): string {
    Netstring(op.name) + Netstring(EncodeStrings(op.args))
  }

  function EncodeOps(ops: seq<Op>): string {
    if |ops| == 0 then "" else EncodeOp(ops[0]) + EncodeOps(ops[1..])
  }

  function DecodeOps(t: string): Option<seq<Op>>
    decreases |t|
  {
    if |t| == 0 then Some([])
    else match ReadNetstring(t)
      case None => None
      case Some((name, afterName)) =>
        match ReadNetstring(afterName)
        case None => None
        case Some((argText, rest)) =>
          match DecodeStrings(argText)
          case None => None
          case Some(args) =>
            match DecodeOps(rest)
            case None => None
            case Some(ops) => Some([Op(name, args)] + ops)
  }

  lemma {:induction false} DecodeEncodeOps(ops: seq<Op>)
    ensures DecodeOps(EncodeOps(ops)) == Some(ops)
  {
    if |ops| > 0 {
      var op := ops[0];
      var argText := EncodeStrings(op.args);
      var rest := EncodeOps(ops[1..]);
      assert EncodeOps(ops) == Netstring(op.name) + (Netstring(argText) + rest);
      ReadNetstringOf(op.name, Netstring(argText) + rest);
      ReadNetstringOf(argText, rest);
      DecodeEncodeStrings(op.args);
      DecodeEncodeOps(ops[1..]);
      assert [Op(op.name, op.args)] + ops[1..] == ops;
    }
  }

  /** The stored text of a Seeding or Pipeline (`dumps`). */
  function Dumps(ops: seq<Op>): (t: string)
    ensures 2 <= |t|
  {
    "[" + EncodeOps(ops) + "]"
  }

  /** Reads stored text back (`loads`); `None` where the library would raise. */
  function Loads(t: string): Option<seq<Op>> {
    if |t| < 2 || t[0] != '[' || t[|t| - 1] != ']' then None
    else DecodeOps(t[1..|t| - 1])
  }

  /** Storing and reloading loses nothing. */
  lemma LoadsDumps(ops: seq<Op>)
    ensures Loads(Dumps(ops)) == Some(ops)
  {
    var t := Dumps(ops);
    assert t[1..|t| - 1] == EncodeOps(ops);
    DecodeEncodeOps(ops);
  }

  /** Distinct operation lists are stored as distinct text. */
  lemma DumpsInjective(a: seq<Op>, b: seq<Op>)
    requires Dumps(a) == Dumps(b)
    ensures a == b
  {
    LoadsDumps(a);
    LoadsDumps(b);
  }
}
