/**
 * `JSON.stringify` and `JSON.parse` over the values of TypedStorage, at the
 * level of tokens: the characters of JSON text (whitespace, string escapes,
 * the decimal form of numbers) are not part of this model.
 */
module JsonCodec {

  import opened Wrappers
  import opened TypedStorage

  /** The lexical units of JSON text. */
  datatype Token =
    | LBrace | RBrace | LBracket | RBracket | Colon | Comma
    | NullToken | TrueToken | FalseToken
    | NumberToken(n: real)
    | StringToken(s: string)

  /** Raw text as held by a host store. */
  type Text = seq<Token>

  /** What JavaScript throws: `SyntaxError` from `JSON.parse`, `TypeError` from a property read on `null`. */
  datatype Error = SyntaxError | TypeError

  /** A value read from the front of a text, with the text after it. */
  datatype Parsed = Parsed(value: Json, rest: Text)

  /** `JSON.stringify`. */
  function Stringify(j: Json): (t: Text)
    ensures t != [] && t[0] != RBracket && t[0] != RBrace
    decreases j, 1
  {
    match j
    case Null => [NullToken]
    case Bool(b) => if b then [TrueToken] else [FalseToken]
    case Num(n) => [NumberToken(n)]
    case Str(s) => [StringToken(s)]
    case Arr(items) =>
      if items == [] then [LBracket, RBracket] else [LBracket] + ElementsText(items) + [RBracket]
    case Obj(fields) =>
      if fields == [] then [LBrace, RBrace] else [LBrace] + MembersText(fields) + [RBrace]
  }

  /** The elements of a non-empty array, separated by commas. */
  function ElementsText(items: seq<Json>): (t: Text)
    requires items != []
    ensures t != [] && t[0] == Stringify(items[0])[0]
    decreases items, 0
  {
    Stringify(items[0]) + if |items| == 1 then [] else [Comma] + ElementsText(items[1..])
  }

  /** The `"name": value` members of a non-empty object, separated by commas. */
  function MembersText(fields: seq<Field>): Text
    requires fields != []
    decreases fields, 0
  {
    [StringToken(fields[0].name), Colon] + Stringify(fields[0].value)
      + if |fields| == 1 then [] else [Comma] + MembersText(fields[1..])
  }

  /**
   * Adds a parsed member to the object under construction: a name seen before
   * keeps its position and takes the new value, as `JSON.parse` does.
   */
  function Put(acc: seq<Field>, f: Field): (r: seq<Field>)
    ensures (forall a | 0 <= a < |acc| :: acc[a].name != f.name) ==> r == acc + [f]
  {
    if acc == [] then [f]
    else if acc[0].name == f.name then [f] + acc[1..]
    else
      assert forall a | 0 <= a < |acc[1..]| :: acc[1..][a] == acc[a + 1];
      [acc[0]] + Put(acc[1..], f)
  }

  /** After `Put`, the member's name reads the new value and every other name reads what it read before. */
  lemma {:induction false} PutLookup(acc: seq<Field>, f: Field, name: string)
    ensures FieldValue(Put(acc, f), name) == if name == f.name then Some(f.value) else FieldValue(acc, name)
  {
    if acc != [] {
      if acc[0].name == f.name {
        assert ([f] + acc[1..])[1..] == acc[1..];
      } else {
        assert ([acc[0]] + Put(acc[1..], f))[1..] == Put(acc[1..], f);
        PutLookup(acc[1..], f, name);
      }
    }
  }

  /** `Put` adds the member's name to the names already there. */
  lemma {:induction false} PutNames(acc: seq<Field>, f: Field)
    ensures NamesOf(Put(acc, f)) == NamesOf(acc) + {f.name}
  {
    if acc != [] {
      NamesOfCons(acc[0], acc[1..]);
      assert [acc[0]] + acc[1..] == acc;
      if acc[0].name == f.name {
        NamesOfCons(f, acc[1..]);
      } else {
        PutNames(acc[1..], f);
        NamesOfCons(acc[0], Put(acc[1..], f));
      }
    } else {
      NamesOfCons(f, acc);
      assert [f] + acc == Put(acc, f);
    }
  }

  /** `Put` keeps the names of an object distinct. */
  lemma {:induction false} PutDistinct(acc: seq<Field>, f: Field)
    requires DistinctNames(acc)
    ensures DistinctNames(Put(acc, f))
  {
    if acc != [] {
      NamesOfExcludes(acc);
      DistinctTail(acc);
      if acc[0].name == f.name {
        DistinctCons(f, acc[1..]);
      } else {
        PutDistinct(acc[1..], f);
        PutNames(acc[1..], f);
        DistinctCons(acc[0], Put(acc[1..], f));
      }
    }
  }

  /** Every member after `Put` is the new one or one that was there before. */
  lemma {:induction false} PutMembers(acc: seq<Field>, f: Field)
    ensures forall a | 0 <= a < |Put(acc, f)| :: Put(acc, f)[a] == f || Put(acc, f)[a] in acc
  {
    if acc != [] && acc[0].name != f.name {
      PutMembers(acc[1..], f);
      var r := Put(acc, f);
      forall a | 0 <= a < |r| ensures r[a] == f || r[a] in acc {
        if a > 0 {
          assert r[a] == Put(acc[1..], f)[a - 1];
        }
      }
    }
  }

  /** The names of a field list. */
  function NamesOf(fields: seq<Field>): set<string> {
    set a | 0 <= a < |fields| :: fields[a].name
  }

  lemma NamesOfCons(x: Field, xs: seq<Field>)
    ensures NamesOf([x] + xs) == {x.name} + NamesOf(xs)
  {
    var ys := [x] + xs;
    forall n | n in NamesOf(ys) ensures n in {x.name} + NamesOf(xs) {
      var a :| 0 <= a < |ys| && ys[a].name == n;
      if a > 0 {
        assert xs[a - 1] == ys[a];
      }
    }
    forall n | n in NamesOf(xs) ensures n in NamesOf(ys) {
      var a :| 0 <= a < |xs| && xs[a].name == n;
      assert ys[a + 1] == xs[a];
    }
    assert ys[0] == x;
  }

  lemma DistinctTail(fields: seq<Field>)
    requires fields != [] && DistinctNames(fields)
    ensures DistinctNames(fields[1..])
  {
    forall a, b | 0 <= a < b < |fields[1..]| ensures fields[1..][a].name != fields[1..][b].name {
      assert fields[1..][a] == fields[a + 1] && fields[1..][b] == fields[b + 1];
    }
  }

  lemma DistinctCons(x: Field, xs: seq<Field>)
    requires x.name !in NamesOf(xs) && DistinctNames(xs)
    ensures DistinctNames([x] + xs)
  {
    var ys := [x] + xs;
    forall a, b | 0 <= a < b < |ys| ensures ys[a].name != ys[b].name {
      assert ys[b] == xs[b - 1];
      if a == 0 {
        assert xs[b - 1].name in NamesOf(xs);
      } else {
        assert ys[a] == xs[a - 1];
      }
    }
  }

  /** In a list with distinct names, the first name does not recur in the rest. */
  lemma NamesOfExcludes(fields: seq<Field>)
    requires fields != [] && DistinctNames(fields)
    ensures fields[0].name !in NamesOf(fields[1..])
  {
    forall a | 0 <= a < |fields[1..]| ensures fields[1..][a].name != fields[0].name {
      assert fields[1..][a] == fields[a + 1];
    }
  }

  /** Reads one JSON value from the front of `ts`: the grammar of `JSON.parse`. */
  function ParseValue(ts: Text): (r: Result<Parsed, Error>)
    ensures r.Success? ==> |r.value.rest| < |ts|
    decreases |ts|, 0
  {
    if ts == [] then Failure(SyntaxError)
    else
      match ts[0]
      case NullToken => Success(Parsed(Null, ts[1..]))
      case TrueToken => Success(Parsed(Bool(true), ts[1..]))
      case FalseToken => Success(Parsed(Bool(false), ts[1..]))
      case NumberToken(n) => Success(Parsed(Num(n), ts[1..]))
      case StringToken(s) => Success(Parsed(Str(s), ts[1..]))
      case LBracket =>
        if |ts| > 1 && ts[1] == RBracket then Success(Parsed(Arr([]), ts[2..]))
        else ParseElements(ts[1..], [])
      case LBrace =>
        if |ts| > 1 && ts[1] == RBrace then Success(Parsed(Obj([]), ts[2..]))
        else ParseMembers(ts[1..], [])
      case _ => Failure(SyntaxError)
  }

  /** Reads `value (, value)* ]`, appending the values to `acc`. */
  function ParseElements(ts: Text, acc: seq<Json>): (r: Result<Parsed, Error>)
    ensures r.Success? ==> |r.value.rest| < |ts|
    decreases |ts|, 1
  {
    match ParseValue(ts)
    case Failure(e) => Failure(e)
    case Success(Parsed(v, rest)) =>
      if rest == [] then Failure(SyntaxError)
      else if rest[0] == Comma then ParseElements(rest[1..], acc + [v])
      else if rest[0] == RBracket then Success(Parsed(Arr(acc + [v]), rest[1..]))
      else Failure(SyntaxError)
  }

  /** Reads `"name": value (, "name": value)* }`, putting the members into `acc`. */
  function ParseMembers(ts: Text, acc: seq<Field>): (r: Result<Parsed, Error>)
    ensures r.Success? ==> |r.value.rest| < |ts|
    decreases |ts|, 1
  {
    if |ts| < 2 || !ts[0].StringToken? || ts[1] != Colon then Failure(SyntaxError)
    else
      match ParseValue(ts[2..])
      case Failure(e) => Failure(e)
      case Success(Parsed(v, rest)) =>
        var acc' := Put(acc, Field(ts[0].s, v));
        if rest == [] then Failure(SyntaxError)
        else if rest[0] == Comma then ParseMembers(rest[1..], acc')
        else if rest[0] == RBrace then Success(Parsed(Obj(acc'), rest[1..]))
        else Failure(SyntaxError)
  }

  /** `JSON.parse`: exactly one value and nothing after it. */
  function Parse(text: Text): (r: Result<Json, Error>)
    ensures r.Success? ==> WellFormed(r.value)
  {
    ParseValueWellFormed(text);
    match ParseValue(text)
    case Failure(e) => Failure(e)
    case Success(Parsed(v, rest)) => if rest == [] then Success(v) else Failure(SyntaxError)
  }

  /** Whatever `JSON.parse` accepts yields a JavaScript value: nested names are distinct. */
  lemma {:induction false} ParseValueWellFormed(ts: Text)
    ensures ParseValue(ts).Success? ==> WellFormed(ParseValue(ts).value.value)
    decreases |ts|, 0
  {
    if ts != [] && |ts| > 1 {
      if ts[0] == LBracket && ts[1] != RBracket {
        ParseElementsWellFormed(ts[1..], []);
      } else if ts[0] == LBrace && ts[1] != RBrace {
        ParseMembersWellFormed(ts[1..], []);
      }
    }
  }

  lemma {:induction false} ParseElementsWellFormed(ts: Text, acc: seq<Json>)
    requires forall a | 0 <= a < |acc| :: WellFormed(acc[a])
    ensures ParseElements(ts, acc).Success? ==> WellFormed(ParseElements(ts, acc).value.value)
    decreases |ts|, 1
  {
    ParseValueWellFormed(ts);
    match ParseValue(ts)
    case Failure(_) =>
    case Success(Parsed(v, rest)) =>
      var acc' := acc + [v];
      assert forall a | 0 <= a < |acc'| :: WellFormed(acc'[a]) by {
        forall a | 0 <= a < |acc'| ensures WellFormed(acc'[a]) {
          if a < |acc| { assert acc'[a] == acc[a]; }
        }
      }
      if rest != [] && rest[0] == Comma {
        ParseElementsWellFormed(rest[1..], acc');
      }
  }

  lemma {:induction false} ParseMembersWellFormed(ts: Text, acc: seq<Field>)
    requires DistinctNames(acc) && forall a | 0 <= a < |acc| :: WellFormed(acc[a].value)
    ensures ParseMembers(ts, acc).Success? ==> WellFormed(ParseMembers(ts, acc).value.value)
    decreases |ts|, 1
  {
    if |ts| >= 2 && ts[0].StringToken? && ts[1] == Colon {
      ParseValueWellFormed(ts[2..]);
      match ParseValue(ts[2..])
      case Failure(_) =>
      case Success(Parsed(v, rest)) =>
        var f := Field(ts[0].s, v);
        PutDistinct(acc, f);
        PutMembers(acc, f);
        var acc' := Put(acc, f);
        assert forall a | 0 <= a < |acc'| :: WellFormed(acc'[a].value) by {
          forall a | 0 <= a < |acc'| ensures WellFormed(acc'[a].value) {
            if acc'[a] != f {
              var b :| 0 <= b < |acc| && acc[b] == acc'[a];
            }
          }
        }
        if rest != [] && rest[0] == Comma {
          ParseMembersWellFormed(rest[1..], acc');
        }
    }
  }

  /** Reading back what `Stringify` wrote yields the same value and leaves the text after it untouched. */
  lemma {:induction false} ParseStringify(j: Json, rest: Text)
    requires WellFormed(j)
    ensures ParseValue(Stringify(j) + rest) == Success(Parsed(j, rest))
    decreases j, 2
  {
    match j
    case Null =>
    case Bool(b) =>
    case Num(n) =>
    case Str(s) =>
    case Arr(items) => ParseStringifyArr(items, rest);
    case Obj(fields) => ParseStringifyObj(fields, rest);
  }

  lemma {:induction false} ParseStringifyArr(items: seq<Json>, rest: Text)
    requires WellFormed(Arr(items))
    ensures ParseValue(Stringify(Arr(items)) + rest) == Success(Parsed(Arr(items), rest))
    decreases Arr(items), 1
  {
    if items != [] {
      var inner := ElementsText(items) + [RBracket] + rest;
      assert Stringify(Arr(items)) + rest == [LBracket] + inner;
      ParseElementsText(items, [], rest);
      assert [] + items == items;
      ParseOpenBracket([LBracket] + inner);
    }
  }

  lemma {:induction false} ParseStringifyObj(fields: seq<Field>, rest: Text)
    requires WellFormed(Obj(fields))
    ensures ParseValue(Stringify(Obj(fields)) + rest) == Success(Parsed(Obj(fields), rest))
    decreases Obj(fields), 1
  {
    if fields != [] {
      var inner := MembersText(fields) + [RBrace] + rest;
      assert Stringify(Obj(fields)) + rest == [LBrace] + inner;
      ParseMembersText(fields, [], rest);
      assert [] + fields == fields;
      ParseOpenBrace([LBrace] + inner);
    }
  }

  lemma ParseOpenBracket(ts: Text)
    requires |ts| > 1 && ts[0] == LBracket && ts[1] != RBracket
    ensures ParseValue(ts) == ParseElements(ts[1..], [])
  {
  }

  lemma ParseOpenBrace(ts: Text)
    requires |ts| > 1 && ts[0] == LBrace && ts[1] != RBrace
    ensures ParseValue(ts) == ParseMembers(ts[1..], [])
  {
  }

  /** One element step: a value followed by a comma or by the closing bracket. */
  lemma ParseElementsStep(ts: Text, acc: seq<Json>, v: Json, rest: Text)
    requires ParseValue(ts) == Success(Parsed(v, rest)) && rest != []
    ensures rest[0] == Comma ==> ParseElements(ts, acc) == ParseElements(rest[1..], acc + [v])
    ensures rest[0] == RBracket ==> ParseElements(ts, acc) == Success(Parsed(Arr(acc + [v]), rest[1..]))
  {
  }

  /** One member step: `"name": value` followed by a comma or by the closing brace. */
  lemma ParseMemberStep(ts: Text, acc: seq<Field>, name: string, v: Json, rest: Text)
    requires |ts| >= 2 && ts[0] == StringToken(name) && ts[1] == Colon
    requires ParseValue(ts[2..]) == Success(Parsed(v, rest)) && rest != []
    requires forall a | 0 <= a < |acc| :: acc[a].name != name
    ensures rest[0] == Comma ==> ParseMembers(ts, acc) == ParseMembers(rest[1..], acc + [Field(name, v)])
    ensures rest[0] == RBrace ==> ParseMembers(ts, acc) == Success(Parsed(Obj(acc + [Field(name, v)]), rest[1..]))
  {
  }

  /** Round trip for the elements of an array being read, after the values already read into `acc`. */
  lemma {:induction false} ParseElementsText(items: seq<Json>, acc: seq<Json>, rest: Text)
    requires items != []
    requires forall a | 0 <= a < |items| :: WellFormed(items[a])
    ensures ParseElements(ElementsText(items) + [RBracket] + rest, acc) == Success(Parsed(Arr(acc + items), rest))
    decreases items, 1
  {
    ParseFirstElement(items, acc, rest);
    if |items| > 1 {
      AppendHead(acc, items);
      ParseElementsText(items[1..], acc + [items[0]], rest);
    }
  }

  /** Reading the first of the remaining elements: either the array is complete or the rest follows a comma. */
  lemma {:induction false} ParseFirstElement(items: seq<Json>, acc: seq<Json>, rest: Text)
    requires items != []
    requires forall a | 0 <= a < |items| :: WellFormed(items[a])
    ensures |items| == 1 ==>
      ParseElements(ElementsText(items) + [RBracket] + rest, acc) == Success(Parsed(Arr(acc + items), rest))
    ensures |items| > 1 ==>
      ParseElements(ElementsText(items) + [RBracket] + rest, acc)
      == ParseElements(ElementsText(items[1..]) + [RBracket] + rest, acc + [items[0]])
    decreases items, 0
  {
    var ts := ElementsText(items) + [RBracket] + rest;
    var after := if |items| == 1 then [RBracket] + rest else [Comma] + (ElementsText(items[1..]) + [RBracket] + rest);
    ElementsTextHead(items, rest);
    ParseStringify(items[0], after);
    ParseElementsStep(ts, acc, items[0], after);
    if |items| == 1 {
      assert acc + [items[0]] == acc + items;
    }
  }

  /** The text of the remaining elements, their closing bracket and what follows, split after the first value. */
  lemma ElementsTextHead(items: seq<Json>, rest: Text)
    requires items != []
    ensures ElementsText(items) + [RBracket] + rest
      == Stringify(items[0])
        + if |items| == 1 then [RBracket] + rest else [Comma] + (ElementsText(items[1..]) + [RBracket] + rest)
  {
    var x, s, r := ElementsText(items), Stringify(items[0]), [RBracket] + rest;
    Associative(x, [RBracket], rest);
    if |items| == 1 {
      assert x == s + [];
      assert s + [] == s;
    } else {
      var e := ElementsText(items[1..]);
      assert x == s + ([Comma] + e);
      Associative(s, [Comma] + e, r);
      Associative([Comma], e, r);
      Associative(e, [RBracket], rest);
    }
  }

  /** Round trip for the members of an object being read, after the members already read into `acc`. */
  lemma {:induction false} ParseMembersText(fields: seq<Field>, acc: seq<Field>, rest: Text)
    requires fields != []
    requires DistinctNames(acc) && DistinctNames(acc + fields)
    requires forall a | 0 <= a < |fields| :: WellFormed(fields[a].value)
    ensures ParseMembers(MembersText(fields) + [RBrace] + rest, acc) == Success(Parsed(Obj(acc + fields), rest))
    decreases fields, 1
  {
    ParseFirstMember(fields, acc, rest);
    if |fields| > 1 {
      AppendHead(acc, fields);
      ParseMembersText(fields[1..], acc + [fields[0]], rest);
    }
  }

  /** Reading the first of the remaining members: either the object is complete or the rest follows a comma. */
  lemma {:induction false} ParseFirstMember(fields: seq<Field>, acc: seq<Field>, rest: Text)
    requires fields != []
    requires DistinctNames(acc) && DistinctNames(acc + fields)
    requires forall a | 0 <= a < |fields| :: WellFormed(fields[a].value)
    ensures DistinctNames(acc + [fields[0]])
    ensures |fields| == 1 ==>
      ParseMembers(MembersText(fields) + [RBrace] + rest, acc) == Success(Parsed(Obj(acc + fields), rest))
    ensures |fields| > 1 ==>
      ParseMembers(MembersText(fields) + [RBrace] + rest, acc)
      == ParseMembers(MembersText(fields[1..]) + [RBrace] + rest, acc + [fields[0]])
    decreases fields, 0
  {
    var f := fields[0];
    DistinctPrefix(acc, fields);
    var ts := MembersText(fields) + [RBrace] + rest;
    var after := if |fields| == 1 then [RBrace] + rest else [Comma] + (MembersText(fields[1..]) + [RBrace] + rest);
    MembersTextHead(fields, rest);
    ParseStringify(f.value, after);
    ParseMemberStep(ts, acc, f.name, f.value, after);
    if |fields| == 1 {
      assert acc + [f] == acc + fields;
    }
  }

  /** The text of the remaining members, their closing brace and what follows, split after the first value. */
  lemma MembersTextHead(fields: seq<Field>, rest: Text)
    requires fields != []
    ensures MembersText(fields) + [RBrace] + rest
      == [StringToken(fields[0].name), Colon] + (Stringify(fields[0].value)
        + if |fields| == 1 then [RBrace] + rest else [Comma] + (MembersText(fields[1..]) + [RBrace] + rest))
  {
    var x, h, s, r := MembersText(fields), [StringToken(fields[0].name), Colon], Stringify(fields[0].value), [RBrace] + rest;
    Associative(x, [RBrace], rest);
    if |fields| == 1 {
      assert x == h + s + [];
      assert h + s + [] == h + s;
      Associative(h, s, r);
    } else {
      var m := MembersText(fields[1..]);
      assert x == h + s + ([Comma] + m);
      Associative(h + s, [Comma] + m, r);
      Associative(h, s, ([Comma] + m) + r);
      Associative([Comma], m, r);
      Associative(m, [RBrace], rest);
    }
  }

  /** Splitting off the first of the remaining members keeps the names distinct. */
  lemma DistinctPrefix(acc: seq<Field>, fields: seq<Field>)
    requires fields != [] && DistinctNames(acc + fields)
    ensures DistinctNames(acc + [fields[0]])
    ensures forall a | 0 <= a < |acc| :: acc[a].name != fields[0].name
  {
    var all := acc + fields;
    var acc' := acc + [fields[0]];
    assert forall a | 0 <= a < |acc'| :: acc'[a] == all[a];
    forall a | 0 <= a < |acc| ensures acc[a].name != fields[0].name {
      assert all[a] == acc[a] && all[|acc|] == fields[0];
    }
  }

  lemma Associative<T>(a: seq<T>, b: seq<T>, c: seq<T>)
    ensures a + b + c == a + (b + c)
  {
  }

  lemma AppendHead<T>(acc: seq<T>, xs: seq<T>)
    requires xs != []
    ensures acc + [xs[0]] + xs[1..] == acc + xs
  {
    assert xs == [xs[0]] + xs[1..];
  }

  /** `JSON.parse(JSON.stringify(v))` is deep-equal to `v`, nested arrays, objects and nulls included. */
  lemma RoundTrip(j: Json)
    requires WellFormed(j)
    ensures Parse(Stringify(j)) == Success(j)
  {
    ParseStringify(j, []);
    assert Stringify(j) + [] == Stringify(j);
  }
}
