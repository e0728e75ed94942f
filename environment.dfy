/**
 * `Environment.getItem` (packages/typescript-env/src/Environment.ts): typed
 * access to the process environment. Without a default the variable's text is
 * returned (or its name when it is unset); with a default, an unset variable
 * yields the default and a set one is converted to the first candidate type
 * that accepts it, always trying number, then boolean, then the raw string.
 *
 * JavaScript's `Number(text)` is a parameter, `toNumber`, of every member that
 * converts: its decimal-literal grammar is not part of this model.
 */
module Environment {

  import opened Wrappers

  /** A JavaScript number as `Number(text)` can produce it. */
  datatype JsNumber = NaN | Infinity(negative: bool) | Finite(r: real)

  /** `EnvironmentValue`, plus the null a caller may pass as default. */
  datatype Value = Str(s: string) | Number(n: JsNumber) | Boolean(b: bool) | NullValue

  /** `typeof` of a value: `EnvironmentValueNames`, plus `'object'`, the `typeof` of null. */
  datatype TypeName = StringType | NumberType | BooleanType | ObjectType

  function TypeOf(v: Value): TypeName {
    match v
    case Str(_) => StringType
    case Number(_) => NumberType
    case Boolean(_) => BooleanType
    case NullValue => ObjectType
  }

  /** `!!n`: NaN and zero are falsy, every other number is truthy. */
  predicate Truthy(n: JsNumber) {
    match n
    case NaN => false
    case Infinity(_) => true
    case Finite(r) => r != 0.0
  }

  function LowerChar(c: char): char {
    if 'A' <= c <= 'Z' then (c as int - 'A' as int + 'a' as int) as char else c
  }

  /** `toLocaleLowerCase`, on the ASCII letters. */
  function Lower(s: string): (r: string)
    ensures |r| == |s| && forall a | 0 <= a < |s| :: r[a] == LowerChar(s[a])
  {
    if s == [] then [] else [LowerChar(s[0])] + Lower(s[1..])
  }

  /** The type list `getItem` consults: the caller's, or the default's own type when the caller gave none. */
  function Candidates(defaultValue: Value, types: seq<TypeName>): (ts: seq<TypeName>)
    ensures |types| > 0 ==> ts == types
    ensures |types| <= 0 ==> ts == [TypeOf(defaultValue)]
    ensures ts != []
    ensures forall t | t in ts :: t in types || t == TypeOf(defaultValue)
  {
    if |types| <= 0 then [TypeOf(defaultValue)] else types
  }

  /**
   * `getItem(name, defaultValue, ...types)` against the environment `env`;
   * `defaultValue` is `None` when the caller passed none (undefined).
   */
  function GetItem(env: map<string, string>, name: string, defaultValue: Option<Value>, types: seq<TypeName>,
                   toNumber: string -> JsNumber): (r: Value)
    ensures defaultValue.None? ==> r == Str(if name in env then env[name] else name)
    ensures defaultValue.Some? && name !in env ==> r == defaultValue.value
  {
    var value := if name in env then env[name] else name;
    if defaultValue.None? then Str(value)
    else if name !in env then defaultValue.value
    else
      var ts := Candidates(defaultValue.value, types);
      if NumberType in ts && (toNumber(value) != NaN || (BooleanType !in ts && StringType !in ts)) then
        Number(toNumber(value))
      else if BooleanType in ts && Lower(value) == "true" then Boolean(true)
      else if BooleanType in ts && Lower(value) == "false" then Boolean(false)
      else if BooleanType in ts && StringType !in ts then Boolean(Truthy(toNumber(value)))
      else Str(value)
  }

  /**
   * Every result of a set variable with a default is either a value of one of
   * the candidate types or the raw text; without `'string'` among the
   * candidates, a number or boolean candidate always wins over the text.
   */
  lemma ResultType(env: map<string, string>, name: string, d: Value, types: seq<TypeName>, toNumber: string -> JsNumber)
    requires name in env
    ensures var r := GetItem(env, name, Some(d), types, toNumber);
      var ts := Candidates(d, types);
      (TypeOf(r) in ts || r == Str(env[name]))
      && (StringType !in ts && (NumberType in ts || BooleanType in ts) ==> TypeOf(r) in ts && !r.Str?)
  {
  }

  /** A number candidate whose text parses wins over every other candidate. */
  lemma NumberFirst(env: map<string, string>, name: string, d: Value, types: seq<TypeName>, toNumber: string -> JsNumber)
    requires name in env && NumberType in Candidates(d, types) && toNumber(env[name]) != NaN
    ensures GetItem(env, name, Some(d), types, toNumber) == Number(toNumber(env[name]))
  {
  }

  /** With number the only candidate of the three, `Number(text)` is returned, even when it is NaN. */
  lemma NumberOnly(env: map<string, string>, name: string, d: Value, types: seq<TypeName>, toNumber: string -> JsNumber)
    requires name in env && NumberType in Candidates(d, types)
    requires BooleanType !in Candidates(d, types) && StringType !in Candidates(d, types)
    ensures GetItem(env, name, Some(d), types, toNumber) == Number(toNumber(env[name]))
  {
  }

  /**
   * With a boolean candidate and no number that parses, the text `true` or
   * `false` in any letter case gives that boolean.
   */
  lemma BooleanWords(env: map<string, string>, name: string, d: Value, types: seq<TypeName>, toNumber: string -> JsNumber)
    requires name in env && BooleanType in Candidates(d, types)
    requires NumberType !in Candidates(d, types) || toNumber(env[name]) == NaN
    ensures Lower(env[name]) == "true" ==> GetItem(env, name, Some(d), types, toNumber) == Boolean(true)
    ensures Lower(env[name]) == "false" ==> GetItem(env, name, Some(d), types, toNumber) == Boolean(false)
  {
  }

  /**
   * With a boolean but no string candidate, any other text that does not parse
   * as a number (when number is a candidate) gives its numeric truthiness.
   */
  lemma BooleanTruthiness(env: map<string, string>, name: string, d: Value, types: seq<TypeName>, toNumber: string -> JsNumber)
    requires name in env && BooleanType in Candidates(d, types) && StringType !in Candidates(d, types)
    requires NumberType !in Candidates(d, types) || toNumber(env[name]) == NaN
    requires Lower(env[name]) != "true" && Lower(env[name]) != "false"
    ensures GetItem(env, name, Some(d), types, toNumber) == Boolean(Truthy(toNumber(env[name])))
  {
  }

  /**
   * The text is returned unchanged only when no more specific candidate takes
   * it: `'string'` is a candidate or none of number and boolean is.
   */
  lemma RawTextFallback(env: map<string, string>, name: string, d: Value, types: seq<TypeName>, toNumber: string -> JsNumber)
    requires name in env
    ensures var ts := Candidates(d, types);
      (GetItem(env, name, Some(d), types, toNumber) == Str(env[name])
      <==> (!(NumberType in ts && toNumber(env[name]) != NaN)
        && !(BooleanType in ts && (Lower(env[name]) == "true" || Lower(env[name]) == "false"))
        && (StringType in ts || (NumberType !in ts && BooleanType !in ts))))
  {
  }

  /**
   * The order in which the caller lists the types does not matter: two
   * non-empty lists with the same members give the same result.
   */
  lemma OrderIrrelevant(env: map<string, string>, name: string, d: Option<Value>, types: seq<TypeName>, others: seq<TypeName>,
                        toNumber: string -> JsNumber)
    requires |types| > 0 && |others| > 0
    requires forall t :: t in types <==> t in others
    ensures GetItem(env, name, d, types, toNumber) == GetItem(env, name, d, others, toNumber)
  {
  }

  /** A string default without types returns the text as it is, whatever it looks like. */
  lemma StringDefault(env: map<string, string>, name: string, s: string, toNumber: string -> JsNumber)
    requires name in env
    ensures GetItem(env, name, Some(Str(s)), [], toNumber) == Str(env[name])
  {
  }

  /** A null default without types also returns the text: `typeof null` is no candidate type. */
  lemma NullDefault(env: map<string, string>, name: string, toNumber: string -> JsNumber)
    requires name in env
    ensures GetItem(env, name, Some(NullValue), [], toNumber) == Str(env[name])
  {
  }

  /** Text whose first letter is no `t` or `f` in any case is neither boolean word. */
  lemma NotAWord(text: string)
    requires |text| > 0 && LowerChar(text[0]) != 't' && LowerChar(text[0]) != 'f'
    ensures Lower(text) != "true" && Lower(text) != "false"
  {
    assert Lower(text)[0] != "true"[0] && Lower(text)[0] != "false"[0];
  }

  /** The boolean words read as themselves. */
  lemma Words()
    ensures Lower("true") == "true" && Lower("false") == "false"
  {
    assert Lower("true") == [LowerChar('t')] + Lower("rue");
    assert Lower("false") == [LowerChar('f')] + Lower("alse");
  }

  /** Without a default: the text of a set variable, the name of an unset one, never converted. */
  lemma NoDefaultExamples(toNumber: string -> JsNumber)
    ensures GetItem(map[], "someValue", None, [], toNumber) == Str("someValue")
    ensures GetItem(map["someValue" := "Rocking these bells"], "someValue", None, [], toNumber) == Str("Rocking these bells")
    ensures GetItem(map["someValue" := "010"], "someValue", None, [], toNumber) == Str("010")
  {
  }

  /** With a default and no types, where `Number` reads the texts as JavaScript does: the default's type decides. */
  lemma DefaultOnlyExamples(toNumber: string -> JsNumber)
    requires toNumber("025.09808000") == Finite(25.09808)
    ensures GetItem(map[], "someNumber", Some(Number(Finite(10.0))), [], toNumber) == Number(Finite(10.0))
    ensures GetItem(map["someString" := "025.09808000"], "someString", Some(Str("010")), [], toNumber) == Str("025.09808000")
    ensures GetItem(map["someNumber" := "025.09808000"], "someNumber", Some(Number(Finite(10.0))), [], toNumber) == Number(Finite(25.09808))
  {
    StringDefault(map["someString" := "025.09808000"], "someString", "010", toNumber);
    NumberFirst(map["someNumber" := "025.09808000"], "someNumber", Number(Finite(10.0)), [], toNumber);
  }

  /** With a boolean default and no types: the words give booleans, other text its numeric truthiness. */
  lemma BooleanDefaultExamples(toNumber: string -> JsNumber)
    requires toNumber("0") == Finite(0.0) && toNumber("1") == Finite(1.0)
    ensures GetItem(map["someTrue" := "true"], "someTrue", Some(Boolean(false)), [], toNumber) == Boolean(true)
    ensures GetItem(map["someFalse" := "false"], "someFalse", Some(Boolean(true)), [], toNumber) == Boolean(false)
    ensures GetItem(map["someZero" := "0"], "someZero", Some(Boolean(true)), [], toNumber) == Boolean(false)
    ensures GetItem(map["someOne" := "1"], "someOne", Some(Boolean(false)), [], toNumber) == Boolean(true)
  {
    Words();
    NotAWord("0");
    NotAWord("1");
  }

  /** With `('boolean', 'number')`: the words give booleans, digits give numbers. */
  lemma BooleanNumberExamples(toNumber: string -> JsNumber)
    requires toNumber("0") == Finite(0.0) && toNumber("1") == Finite(1.0)
    requires toNumber("true") == NaN && toNumber("false") == NaN
    ensures GetItem(map["someTrue" := "true"], "someTrue", Some(Number(Finite(10.0))), [BooleanType, NumberType], toNumber) == Boolean(true)
    ensures GetItem(map["someFalse" := "false"], "someFalse", Some(Number(Finite(10.0))), [BooleanType, NumberType], toNumber) == Boolean(false)
    ensures GetItem(map["someZero" := "0"], "someZero", Some(Boolean(true)), [BooleanType, NumberType], toNumber) == Number(Finite(0.0))
    ensures GetItem(map["someOne" := "1"], "someOne", Some(Boolean(false)), [BooleanType, NumberType], toNumber) == Number(Finite(1.0))
  {
    Words();
  }

  /** With `('boolean', 'string')`: the words give booleans, digits stay text. */
  lemma BooleanStringExamples(toNumber: string -> JsNumber)
    ensures GetItem(map["someTrue" := "true"], "someTrue", Some(Str("10")), [BooleanType, StringType], toNumber) == Boolean(true)
    ensures GetItem(map["someFalse" := "false"], "someFalse", Some(Str("10")), [BooleanType, StringType], toNumber) == Boolean(false)
    ensures GetItem(map["someZero" := "0"], "someZero", Some(Boolean(true)), [BooleanType, StringType], toNumber) == Str("0")
    ensures GetItem(map["someOne" := "1"], "someOne", Some(Boolean(false)), [BooleanType, StringType], toNumber) == Str("1")
  {
    Words();
    NotAWord("0");
    NotAWord("1");
  }

  /** With `('number', 'string')`: the words stay text, digits give numbers. */
  lemma NumberStringExamples(toNumber: string -> JsNumber)
    requires toNumber("0") == Finite(0.0) && toNumber("1") == Finite(1.0)
    requires toNumber("true") == NaN && toNumber("false") == NaN
    ensures GetItem(map["someTrue" := "true"], "someTrue", Some(Number(Finite(10.0))), [NumberType, StringType], toNumber) == Str("true")
    ensures GetItem(map["someFalse" := "false"], "someFalse", Some(Number(Finite(10.0))), [NumberType, StringType], toNumber) == Str("false")
    ensures GetItem(map["someZero" := "0"], "someZero", Some(Str("true")), [NumberType, StringType], toNumber) == Number(Finite(0.0))
    ensures GetItem(map["someOne" := "1"], "someOne", Some(Str("false")), [NumberType, StringType], toNumber) == Number(Finite(1.0))
  {
    NumberFirst(map["someZero" := "0"], "someZero", Str("true"), [NumberType, StringType], toNumber);
    NumberFirst(map["someOne" := "1"], "someOne", Str("false"), [NumberType, StringType], toNumber);
  }

  /** With all three types: words, then numbers, and any other text as it is. */
  lemma AllTypesExamples(toNumber: string -> JsNumber)
    requires toNumber("0") == Finite(0.0) && toNumber("1") == Finite(1.0)
    requires toNumber("true") == NaN && toNumber("false") == NaN && toNumber("x1x2") == NaN
    ensures GetItem(map["someTrue" := "true"], "someTrue", Some(Number(Finite(10.0))), [BooleanType, NumberType, StringType], toNumber) == Boolean(true)
    ensures GetItem(map["someFalse" := "false"], "someFalse", Some(Number(Finite(10.0))), [BooleanType, NumberType, StringType], toNumber) == Boolean(false)
    ensures GetItem(map["someZero" := "0"], "someZero", Some(Boolean(true)), [BooleanType, NumberType, StringType], toNumber) == Number(Finite(0.0))
    ensures GetItem(map["someOne" := "1"], "someOne", Some(Boolean(false)), [BooleanType, NumberType, StringType], toNumber) == Number(Finite(1.0))
    ensures GetItem(map["someString" := "x1x2"], "someString", Some(Number(Finite(10.0))), [BooleanType, NumberType, StringType], toNumber) == Str("x1x2")
  {
    Words();
    NotAWord("x1x2");
  }
}
