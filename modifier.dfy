// Value modifiers (RDFer/Modifier.cs): four built-in transformations chosen
// by a trimmed, case-folded name, and a fall-back search through the
// modifier libraries for any other name.

module Modifiers {
  import opened Wrappers
  import opened DotNet
  import MyModifiers

  /** A ModifierDelegate: a built-in transformation, or the delegate a
      modifier library handed out. */
  datatype Modifier =
    | Md5
    | StrToLower
    | ExtractCurrency
    | ExtractDenomination
    | Custom(apply: string -> Result<string>)

  /** An IModifier instance of a modifier library: it answers a name with a
      delegate, or with null. */
  type Provider = string -> Option<string -> Result<string>>

  /** The instance MyModifier contributes. */
  function MyModifierProvider(rt: Runtime): Provider
  {
    name =>
      match MyModifiers.GetCustomModifierMethod(name)
      case None => None
      case Some(c) => Some(s => MyModifiers.ApplyCustom(c, s, rt))
  }

  // ---------------------------------------------------------------------
  // Looking a modifier up

  /** The first provider, in order, that answers the name; an error when
      none does. */
  function CustomLookup(methodName: string, providers: seq<Provider>): (r: Result<Modifier>)
    ensures r.Ok? <==> exists i :: 0 <= i < |providers| && providers[i](methodName).Some?
    ensures r.Ok? ==>
      r.value.Custom? &&
      exists i :: 0 <= i < |providers| && providers[i](methodName) == Some(r.value.apply) &&
        forall j :: 0 <= j < i ==> providers[j](methodName).None?
    ensures r.Err? ==> r.error == UnknownModifier(methodName)
    decreases |providers|
  {
    if |providers| == 0 then Err(UnknownModifier(methodName))
    else match providers[0](methodName)
      case Some(f) => Ok(Custom(f))
      case None =>
        var rest := CustomLookup(methodName, providers[1..]);
        assert forall i :: 1 <= i < |providers| ==> providers[i] == providers[1..][i - 1];
        rest
  }

  /** GetCustomModifier: the libraries' instances are asked in turn. */
  method GetCustomModifier(methodName: string, providers: seq<Provider>) returns (r: Result<Modifier>)
    ensures r == CustomLookup(methodName, providers)
  {
    var i := 0;
    while i < |providers|
      invariant 0 <= i <= |providers|
      invariant CustomLookup(methodName, providers) == CustomLookup(methodName, providers[i..])
    {
      assert providers[i..][1..] == providers[i + 1..];
      var answer := providers[i](methodName);
      if answer.Some? {
        return Ok(Custom(answer.value));
      }
      i := i + 1;
    }
    r := Err(UnknownModifier(methodName));
  }

  /** The modifier a name selects: the four built-ins by their trimmed,
      lower-cased name, anything else by the untrimmed name from the
      libraries. */
  function ModifierNamed(methodName: string, providers: seq<Provider>): Result<Modifier>
  {
    match ToLower(Trim(methodName))
    case "md5" => Ok(Md5)
    case "strtolower" => Ok(StrToLower)
    case "extractcurrency" => Ok(ExtractCurrency)
    case "extractdenomination" => Ok(ExtractDenomination)
    case _ => CustomLookup(methodName, providers)
  }

  method GetModifierMethod(methodName: string, providers: seq<Provider>) returns (r: Result<Modifier>)
    ensures r == ModifierNamed(methodName, providers)
  {
    var key := ToLower(Trim(methodName));
    if key == "md5" {
      r := Ok(Md5);
    } else if key == "strtolower" {
      r := Ok(StrToLower);
    } else if key == "extractcurrency" {
      r := Ok(ExtractCurrency);
    } else if key == "extractdenomination" {
      r := Ok(ExtractDenomination);
    } else {
      r := GetCustomModifier(methodName, providers);
    }
  }

  /** A built-in name wins whatever the libraries offer. */
  lemma BuiltinShadowsLibraries(methodName: string, p: seq<Provider>, q: seq<Provider>)
    requires ToLower(Trim(methodName)) in {"md5", "strtolower", "extractcurrency", "extractdenomination"}
    ensures ModifierNamed(methodName, p) == ModifierNamed(methodName, q)
  {
  }

  /** Library names are not trimmed: with MyModifier alone, " encodevalue"
      finds nothing, while "encodevalue" finds EncodeValue. */
  lemma LibraryNamesAreExact(rt: Runtime, name: string, padded: string)
    requires name == "encodevalue" && padded == " " + name
    ensures ModifierNamed(padded, [MyModifierProvider(rt)]).Err?
    ensures ModifierNamed(name, [MyModifierProvider(rt)]).Ok?
  {
    PaddedNameFolds(name, padded);
    assert MyModifiers.GetCustomModifierMethod(padded) == None;
    assert MyModifiers.GetCustomModifierMethod(name).Some?;
  }

  lemma PaddedNameFolds(name: string, padded: string)
    requires name == "encodevalue" && padded == " " + name
    ensures ToLower(Trim(padded)) == name && ToLower(Trim(name)) == name
  {
    TrimOfNonBlankEnds(name);
    assert padded[1..] == name;
    assert TrimStartBy(padded, IsWhiteSpace) == TrimStartBy(name, IsWhiteSpace);
    assert ToLower(name) == name;
  }

  // ---------------------------------------------------------------------
  // The built-in transformations

  /** ExtractCurrency: the part of "currency,value" before the first comma. */
  function ExtractCurrencyOf(input: string): (r: string)
    ensures StartsWith(Trim(input), r)
    ensures |r| < |Trim(input)| ==> 0 < |r| && Trim(input)[|r|] == ',' && ',' !in r
    ensures r == Trim(input) ==> |Trim(input)| == 0 || ',' !in Trim(input) || Trim(input)[0] == ','
  {
    var value := Trim(input);
    if |value| == 0 then value
    else match IndexOf(value, ",", 0)
      case Some(pos) =>
        FirstCommaPrefix(value, pos);
        if pos > 0 then value[..pos] else value
      case None =>
        ContainsChar(value, ',');
        value
  }

  lemma FirstCommaPrefix(value: string, pos: nat)
    requires OccursAt(value, ",", pos)
    requires forall k :: 0 <= k < pos ==> !OccursAt(value, ",", k)
    ensures pos < |value| && value[pos] == ',' && ',' !in value[..pos]
  {
    assert value[pos..pos + 1][0] == value[pos];
    forall k | 0 <= k < pos
      ensures value[..pos][k] != ','
    {
      assert !OccursAt(value, ",", k);
      assert value[k..k + 1][0] == value[k];
    }
  }

  /** ExtractDenomination: the part after the first comma when it reads as
      a number, otherwise "". */
  function ExtractDenominationOf(input: string, parsesAsDouble: string -> bool): (r: string)
    ensures r != "" ==> parsesAsDouble(r) && ExtractCurrencyOf(input) + "," + r == Trim(input)
  {
    var value := Trim(input);
    if |value| == 0 then ""
    else match IndexOf(value, ",", 0)
      case Some(pos) =>
        if pos > 0 then
          var rest := value[pos + 1..];
          FirstCommaPrefix(value, pos);
          assert value[..pos] + "," + rest == value;
          if parsesAsDouble(rest) then rest else ""
        else ""
      case None => ""
  }

  /** The denomination is exactly what follows the currency's comma when
      that text is numeric. */
  lemma DenominationAfterCurrency(input: string, parsesAsDouble: string -> bool)
    requires 0 < |ExtractCurrencyOf(input)| < |Trim(input)|
    requires parsesAsDouble(Trim(input)[|ExtractCurrencyOf(input)| + 1..])
    ensures ExtractDenominationOf(input, parsesAsDouble) == Trim(input)[|ExtractCurrencyOf(input)| + 1..]
  {
  }

  /** Applying a modifier to one value. */
  function Apply(m: Modifier, input: string, rt: Runtime): Result<string>
  {
    match m
    case Md5 => Ok(rt.md5Hex(input))
    case StrToLower => Ok(ToLower(input))
    case ExtractCurrency => Ok(ExtractCurrencyOf(input))
    case ExtractDenomination => Ok(ExtractDenominationOf(input, rt.parsesAsDouble))
    case Custom(f) => f(input)
  }

  /** Applying an optional modifier (a null mod_func leaves the value alone). */
  function ApplyOptional(m: Option<Modifier>, input: string, rt: Runtime): Result<string>
  {
    if m.Some? then Apply(m.value, input, rt) else Ok(input)
  }
}
