/**
 * Wrapper-source synthesis of `CompileFunction`: the catalog body of a
 * function is placed inside an anonymous script function whose parameters
 * are the declared argument names (or `$1`, `$2`, ... for unnamed ones), or
 * the fixed ten trigger parameters. Evaluating the wrapper once yields the
 * callable the cache keeps.
 */
module Wrapper {
  import opened Base
  import opened Decimal
  import opened Text

  /** Argument names as handed to the builder: the array may be absent, and so may each name. */
  type ArgNames = Option<seq<Option<string>>>

  /** The fixed trigger signature: new row, old row, then the eight TG_ values, in this order. */
  const TriggerParamNames: seq<string> :=
    ["NEW", "OLD", "TG_NAME", "TG_WHEN", "TG_LEVEL", "TG_OP",
     "TG_RELID", "TG_TABLE_NAME", "TG_TABLE_SCHEMA", "TG_ARGV"]

  /** "NEW, OLD, TG_NAME, ..., TG_ARGV" */
  const TriggerParams: string := Join(TriggerParamNames, ", ")

  const Header: string := "(function ("
  const Opening: string := "){\n"
  const Footer: string := "\n})"

  /** The declared name of argument `i`, or the positional name `$i+1` when there is none. */
  function ParamName(names: ArgNames, i: nat): string {
    if names.Some? && i < |names.value| && names.value[i].Some? then names.value[i].value
    else "$" + NatToString(i + 1)
  }

  function ParamNames(n: nat, names: ArgNames): (r: seq<string>)
    ensures |r| == n
    ensures forall i :: 0 <= i < n ==> r[i] == ParamName(names, i)
  {
    seq(n, i requires 0 <= i < n => ParamName(names, i))
  }

  /** The text between the parentheses of the wrapper's parameter list. */
  function ParamList(n: nat, names: ArgNames, isTrigger: bool): string {
    if isTrigger then TriggerParams else Join(ParamNames(n, names), ",")
  }

  /** The wrapper source, or the error for a trigger declared with arguments. */
  function WrapperSource(n: nat, names: ArgNames, src: string, isTrigger: bool): (r: Result<string>)
    ensures r.Fail? <==> isTrigger && n != 0
    ensures r.Fail? ==> r == ScriptFail("trigger function cannot have arguments")
  {
    if isTrigger && n != 0 then ScriptFail("trigger function cannot have arguments")
    else Ok(Header + ParamList(n, names, isTrigger) + Opening + src + Footer)
  }

  /** A name that cannot disturb the wrapper's parameter list or line count. */
  predicate PlainName(s: string) {
    ',' !in s && ')' !in s && '\n' !in s
  }

  predicate PlainNames(names: ArgNames) {
    names.Some? ==> forall i :: 0 <= i < |names.value| && names.value[i].Some? ==> PlainName(names.value[i].value)
  }

  /** Splits a wrapper into its parameter list and the enclosed body. */
  function ParseWrapper(w: string): Option<(string, string)> {
    if |w| < |Header| + |Footer| || w[..|Header|] != Header || w[|w| - |Footer|..] != Footer then None
    else
      var inner := w[|Header|..|w| - |Footer|];
      match FirstIndex(inner, ')')
      case None => None
      case Some(k) =>
        if |inner| < k + |Opening| || inner[k..k + |Opening|] != Opening then None
        else Some((inner[..k], inner[k + |Opening|..]))
  }

  lemma PositionalNamesArePlain(names: ArgNames, i: nat)
    requires PlainNames(names)
    ensures PlainName(ParamName(names, i))
  {
    if !(names.Some? && i < |names.value| && names.value[i].Some?) {
      var d := NatToString(i + 1);
      assert forall k :: 0 <= k < |d| ==> IsDigit(d[k]);
    }
  }

  lemma {:induction false} JoinPlain(parts: seq<string>, sep: string)
    requires forall i :: 0 <= i < |parts| ==> PlainName(parts[i])
    requires ')' !in sep && '\n' !in sep
    ensures ')' !in Join(parts, sep) && '\n' !in Join(parts, sep)
    decreases |parts|
  {
    if |parts| > 1 {
      JoinPlain(parts[1..], sep);
    }
  }

  lemma TriggerParamNamesPlain()
    ensures forall i :: 0 <= i < |TriggerParamNames| ==> PlainName(TriggerParamNames[i])
  {
    assert PlainName("TG_TABLE_SCHEMA");
    assert PlainName("TG_TABLE_NAME");
  }

  lemma ParamListPlain(n: nat, names: ArgNames, isTrigger: bool)
    requires PlainNames(names)
    ensures ')' !in ParamList(n, names, isTrigger) && '\n' !in ParamList(n, names, isTrigger)
  {
    if isTrigger {
      TriggerParamNamesPlain();
      JoinPlain(TriggerParamNames, ", ");
    } else {
      var ps := ParamNames(n, names);
      forall i | 0 <= i < |ps|
        ensures PlainName(ps[i])
      {
        PositionalNamesArePlain(names, i);
      }
      JoinPlain(ps, ",");
    }
  }

  /** The header and footer of a wrapper are found again, and between them lies the body. */
  lemma WrapperEnds(body: string)
    ensures var w := Header + body + Footer;
      && |w| == |Header| + |body| + |Footer|
      && w[..|Header|] == Header
      && w[|w| - |Footer|..] == Footer
      && w[|Header|..|w| - |Footer|] == body
  {
  }

  /** A parameter list free of ')' is ended by the first ')', which opens the body. */
  lemma BodySplits(p: string, src: string)
    requires ')' !in p
    ensures var inner := p + (Opening + src);
      && FirstIndex(inner, ')') == Some(|p|)
      && |p| + |Opening| <= |inner|
      && inner[..|p|] == p
      && inner[|p|..|p| + |Opening|] == Opening
      && inner[|p| + |Opening|..] == src
  {
    FirstIndexAfterPrefix(p, Opening + src, ')');
  }

  /** A wrapper around a parameter list free of ')' splits back into that list and the body. */
  lemma ParseWrapped(p: string, src: string)
    requires ')' !in p
    ensures ParseWrapper(Header + p + Opening + src + Footer) == Some((p, src))
  {
    var body := p + (Opening + src);
    assert Header + p + Opening + src + Footer == Header + body + Footer;
    WrapperEnds(body);
    BodySplits(p, src);
  }

  /** A plain parameter list splits at its commas into the parameter names. */
  lemma ParamListSplits(n: nat, names: ArgNames)
    requires PlainNames(names)
    requires n >= 1
    ensures Split(ParamList(n, names, false), ',') == ParamNames(n, names)
  {
    var ps := ParamNames(n, names);
    forall i | 0 <= i < |ps|
      ensures ',' !in ps[i]
    {
      PositionalNamesArePlain(names, i);
    }
    SplitJoin(ps, ',');
  }

  /**
   * The wrapper can be taken apart again: its parameter list splits back
   * into exactly the declared or positional names (or is the fixed trigger
   * list), and its body is the catalog source unchanged.
   */
  lemma WrapperRoundTrip(n: nat, names: ArgNames, src: string, isTrigger: bool)
    requires PlainNames(names)
    requires WrapperSource(n, names, src, isTrigger).Ok?
    ensures var p := ParamList(n, names, isTrigger);
      && ParseWrapper(WrapperSource(n, names, src, isTrigger).value) == Some((p, src))
      && (isTrigger ==> p == TriggerParams)
      && (!isTrigger && n >= 1 ==> Split(p, ',') == ParamNames(n, names))
  {
    var p := ParamList(n, names, isTrigger);
    assert WrapperSource(n, names, src, isTrigger).value == Header + p + Opening + src + Footer;
    ParamListPlain(n, names, isTrigger);
    ParseWrapped(p, src);
    if !isTrigger && n >= 1 {
      ParamListSplits(n, names);
    }
  }

  /**
   * The text in front of the body (header, a parameter list without line
   * breaks, and the opening brace) holds exactly one newline, the one that
   * ends the opening brace.
   */
  lemma HeaderHasOneNewline(p: string)
    requires '\n' !in p
    ensures Count(Header + p + Opening, '\n') == 1
  {
    CountAppend(Header + p, Opening, '\n');
    CountAppend(Header, p, '\n');
    CountAbsent(p, '\n');
    assert Count(Header, '\n') == 0;
    assert Count(Opening, '\n') == 1;
  }

  /**
   * Exactly one line of wrapper text precedes the catalog source, so line
   * L of the wrapper is line L - 1 of the function body: the correction the
   * error detail applies.
   */
  lemma SourceStartsOnSecondLine(n: nat, names: ArgNames, src: string, isTrigger: bool)
    requires PlainNames(names)
    requires WrapperSource(n, names, src, isTrigger).Ok?
    ensures var w := WrapperSource(n, names, src, isTrigger).value;
      var h := |Header| + |ParamList(n, names, isTrigger)| + |Opening|;
      && h <= |w|
      && w[h..h + |src|] == src
      && Count(w[..h], '\n') == 1
      && w[h - 1] == '\n'
  {
    var p := ParamList(n, names, isTrigger);
    var head := Header + p + Opening;
    var w := head + src + Footer;
    assert WrapperSource(n, names, src, isTrigger).value == w;
    var h := |head|;
    assert w[..h] == head;
    assert w[h..h + |src|] == src;
    assert w[h - 1] == head[h - 1] == '\n';
    ParamListPlain(n, names, isTrigger);
    HeaderHasOneNewline(p);
  }

  /** The anonymous block of the inline handler: no name, no parameters. */
  lemma InlineWrapper(src: string)
    ensures WrapperSource(0, None, src, false) == Ok("(function (){\n" + src + "\n})")
  {
    assert ParamList(0, None, false) == "";
    assert Header + "" + Opening + src + Footer == "(function (){\n" + src + "\n})";
  }
}
