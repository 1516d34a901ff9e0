/** `repair_json`: a strict parse, then the textual rewrites and a second parse,
    then the regex salvage of the original reply. */
module Repair {
  import opened Wrappers
  import opened Strings
  import opened Dicts
  import opened Json
  import opened TextRepair
  import opened Salvage

  /** `Full`: the three CJK-aware translators, which also strip control
      characters, fix lone backslashes and salvage with two patterns.
      `Lean`: app13.py, with neither pass and the single-pattern salvage. */
  datatype Variant = Full | Lean

  /** The text handed to the second parse: the rewrites in source order. */
  function Mend(v: Variant, s: string): string {
    var a := if v == Full then FixBackslashes(StripControl(s)) else s;
    QuoteKeys(DropTrailingCommas(DropTrailingCommas(BalanceBraces(a), '}'), ']'))
  }

  function SalvageOf(v: Variant, s: string): (r: Dict<Value>)
    ensures ValidDict(r)
  {
    if v == Full then SalvageFull(s) else SalvageSimple(s)
  }

  /** `repair_json(s)`. The salvage reads the reply as received, not the
      rewritten text, and a failure re-raises the first decode error. */
  function RepairJson(parse: Parser, v: Variant, s: string): (r: Outcome<JsonValue>)
    ensures r.Ok? <==> parse(s).Parsed? || parse(Mend(v, s)).Parsed? || |SalvageOf(v, s)| > 0
    ensures r.Raised? ==> r.error == DecodeError
    ensures parse(s).Parsed? ==> r == Ok(parse(s).value)
    ensures !parse(s).Parsed? && parse(Mend(v, s)).Parsed? ==> r == Ok(parse(Mend(v, s)).value)
    ensures r.Ok? && !parse(s).Parsed? && !parse(Mend(v, s)).Parsed? ==>
      r.value == JObject(SalvageOf(v, s)) && Truthy(r.value)
  {
    match parse(s)
    case Parsed(j) => Ok(j)
    case Malformed =>
      match parse(Mend(v, s))
      case Parsed(j) => Ok(j)
      case Malformed =>
        var d := SalvageOf(v, s);
        if |d| > 0 then Ok(JObject(d)) else Raised(DecodeError)
  }

  /** A reply the rewrites have nothing to do to. */
  predicate Clean(v: Variant, s: string) {
    && (v == Full ==> (forall i :: 0 <= i < |s| ==> !IsControl(s[i])))
    && (v == Full ==> (forall i :: 0 <= i < |s| ==> !LoneBackslash(s, i)))
    && CountChar(s, '{') == CountChar(s, '}')
    && !TrailingComma(s, '}') && !TrailingComma(s, ']')
    && !BareKey(s)
  }

  /** The rewrites leave a clean reply as it is, so its second parse repeats the
      first. */
  lemma MendClean(v: Variant, s: string)
    requires Clean(v, s)
    ensures Mend(v, s) == s
  {
    if v == Full {
      StripControlIdentity(s);
      FixBackslashesIdentity(s);
    }
    assert BalanceBraces(s) == s;
    DropTrailingCommasIdentity(s, '}');
    DropTrailingCommasIdentity(s, ']');
    QuoteKeysIdentity(s);
  }

  /** Hence for a clean reply the repair is the strict parse or the salvage. */
  lemma RepairClean(parse: Parser, v: Variant, s: string)
    requires Clean(v, s)
    ensures RepairJson(parse, v, s).Ok? <==> parse(s).Parsed? || |SalvageOf(v, s)| > 0
  {
    MendClean(v, s);
  }

  /** When the reply opens at least as many braces as it closes, the text of
      the second parse has them balanced. */
  lemma MendBalances(v: Variant, s: string)
    requires CountChar(s, '{') >= CountChar(s, '}')
    ensures CountChar(Mend(v, s), '{') == CountChar(Mend(v, s), '}')
  {
    var a := if v == Full then FixBackslashes(StripControl(s)) else s;
    if v == Full {
      RewritesKeepBraces(s, '}', '{');
      RewritesKeepBraces(s, '}', '}');
      RewritesKeepBraces(StripControl(s), '}', '{');
      RewritesKeepBraces(StripControl(s), '}', '}');
    }
    assert CountChar(a, '{') >= CountChar(a, '}');
    var b := BalanceBraces(a);
    var c := DropTrailingCommas(b, '}');
    var e := DropTrailingCommas(c, ']');
    RewritesKeepBraces(b, '}', '{');
    RewritesKeepBraces(b, '}', '}');
    RewritesKeepBraces(c, ']', '{');
    RewritesKeepBraces(c, ']', '}');
    RewritesKeepBraces(e, '}', '{');
    RewritesKeepBraces(e, '}', '}');
  }

  /** A well-formed object hidden in prose that defeats both parses is still
      recovered in full by the salvage, for any parser. */
  lemma RepairRecoversRendered(parse: Parser, v: Variant, d: Dict<string>, pre: string, post: string)
    requires ValidDict(d) && PlainDict(d) && |d| > 0 && NoQuote(pre) && NoQuote(post)
    requires v == Lean ==> forall i :: 0 <= i < |d| ==> |d[i].0| > 0
    ensures var s := pre + Render(d) + post;
      !parse(s).Parsed? && !parse(Mend(v, s)).Parsed? ==>
      RepairJson(parse, v, s) == Ok(JObject(AsObject(d)))
  {
    var s := pre + Render(d) + post;
    if !parse(s).Parsed? && !parse(Mend(v, s)).Parsed? {
      SalvageRendered(d, pre, post);
      assert SalvageOf(v, s) == AsObject(d);
      RepairFallsToSalvage(parse, v, s);
    }
  }

  /** When both parses fail, the repair is the salvage, or the decode error
      when the salvage is empty. */
  lemma RepairFallsToSalvage(parse: Parser, v: Variant, s: string)
    requires !parse(s).Parsed? && !parse(Mend(v, s)).Parsed?
    ensures RepairJson(parse, v, s)
      == if |SalvageOf(v, s)| > 0 then Ok(JObject(SalvageOf(v, s))) else Raised(DecodeError)
  {
  }
}
