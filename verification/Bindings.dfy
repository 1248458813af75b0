/** Command-line bindings: the first of a name wins, whatever its kind, and `$ARGS` is built from the winners. */
module Bindings {
  import opened Bytes
  import opened ObjectBuilder
  import opened SortedBuilder
  import Constant

  type Value = Constant.Value

  datatype Binding =
    | Arg(name: string, text: string)
    | ArgJson(name: string, text: string)
    | SlurpFile(name: string, file: string)
    | RawFile(name: string, file: string)

  /** The file of a file-backed binding. */
  function FileOf(b: Binding): Option<string>
  {
    match b
    case SlurpFile(_, file) => Some(file)
    case RawFile(_, file) => Some(file)
    case _ => None
  }

  /** What a host's files hold; a file that cannot be read holds nothing. */
  type Files = string -> Option<Bytes>

  /** A binding's value from itself and the bytes of its file. */
  type Evaluator = (Binding, Option<Bytes>) -> Option<Value>

  /** An offered binding: its variable name, and its value when it has one. */
  type Offer = Entry<Option<Value>>

  // ----- First occurrence wins -----

  function FirstWins<V>(offers: seq<Entry<V>>): seq<Entry<V>>
    decreases |offers|
  {
    if offers == [] then [] else [offers[0]] + FirstWins(Without(offers[1..], offers[0].key))
  }

  lemma {:induction false} WithoutFirst<V>(entries: seq<Entry<V>>, gone: string, key: string)
    ensures HasKey(Without(entries, gone), key) <==> key != gone && HasKey(entries, key)
    ensures key != gone && HasKey(entries, key) ==> FirstValue(Without(entries, gone), key) == FirstValue(entries, key)
  {
    WithoutHasKey(entries, gone, key);
    if entries != [] && key != gone && HasKey(entries, key) {
      HasKeyCons(entries[0], entries[1..], key);
      assert entries == [entries[0]] + entries[1..];
      if entries[0].key != key {
        WithoutFirst(entries[1..], gone, key);
      }
      if entries[0].key != gone {
        HasKeyCons(entries[0], Without(entries[1..], gone), key);
      }
    }
  }

  lemma HasKeyCons<V>(e: Entry<V>, entries: seq<Entry<V>>, key: string)
    ensures HasKey([e] + entries, key) <==> e.key == key || HasKey(entries, key)
    ensures HasKey([e] + entries, key) ==>
              FirstValue([e] + entries, key) == if e.key == key then e.value else FirstValue(entries, key)
  {
    var all := [e] + entries;
    if e.key == key {
      assert all[0].key == key;
    }
    if HasKey(entries, key) {
      var k :| 0 <= k < |entries| && entries[k].key == key;
      assert all[k + 1].key == key;
    }
    if HasKey(all, key) && e.key != key {
      var k :| 0 <= k < |all| && all[k].key == key;
      assert entries[k - 1].key == key;
      assert all[1..] == entries;
    }
  }

  /** The winners have distinct names, they are the offered names, and each has its first offer's value. */
  lemma {:induction false} WinnersAreFirst<V>(offers: seq<Entry<V>>, key: string)
    ensures HasKey(FirstWins(offers), key) <==> HasKey(offers, key)
    ensures HasKey(offers, key) ==> FirstValue(FirstWins(offers), key) == FirstValue(offers, key)
    decreases |offers|
  {
    if offers != [] {
      var rest := Without(offers[1..], offers[0].key);
      WinnersAreFirst(rest, key);
      WithoutFirst(offers[1..], offers[0].key, key);
      HasKeyCons(offers[0], offers[1..], key);
      HasKeyCons(offers[0], FirstWins(rest), key);
      assert offers == [offers[0]] + offers[1..];
    }
  }

  lemma {:induction false} WinnersDistinct<V>(offers: seq<Entry<V>>)
    ensures Distinct(FirstWins(offers))
    decreases |offers|
  {
    if offers != [] {
      var first := offers[0];
      var rest := Without(offers[1..], first.key);
      var winners := FirstWins(rest);
      WinnersDistinct(rest);
      forall k | 0 <= k < |winners|
        ensures winners[k].key != first.key
      {
        assert HasKey(winners, winners[k].key);
        WinnersAreFirst(rest, winners[k].key);
        WithoutFirst(offers[1..], first.key, winners[k].key);
      }
    }
  }

  /** The loop's view: a later offer is taken exactly when its name is new. */
  lemma {:induction false} WinnersAppend<V>(offers: seq<Entry<V>>, e: Entry<V>)
    ensures FirstWins(offers + [e]) == if HasKey(offers, e.key) then FirstWins(offers) else FirstWins(offers) + [e]
    decreases |offers|
  {
    var all := offers + [e];
    if offers == [] {
      assert all == [e] && all[1..] == [];
    } else {
      var key := offers[0].key;
      assert all[0] == offers[0] && all[1..] == offers[1..] + [e];
      assert HasKey(offers, key);
      WithoutAppend(offers[1..], e, key);
      HasKeyCons(offers[0], offers[1..], e.key);
      assert offers == [offers[0]] + offers[1..];
      if e.key != key {
        WinnersAppend(Without(offers[1..], key), e);
        WithoutFirst(offers[1..], key, e.key);
      }
    }
  }

  // ----- The files come first -----

  /** The bytes a binding is evaluated with. */
  function BytesOf(b: Binding, files: Files): Option<Bytes>
  {
    if FileOf(b).Some? then files(FileOf(b).value) else None
  }

  /** Every file named by a binding, winner or not, can be read. */
  predicate AllReadable(bindings: seq<Binding>, files: Files)
  {
    forall k :: 0 <= k < |bindings| && FileOf(bindings[k]).Some? ==> files(FileOf(bindings[k]).value).Some?
  }

  function AllBytes(bindings: seq<Binding>, files: Files): seq<Option<Bytes>>
  {
    seq(|bindings|, k requires 0 <= k < |bindings| => BytesOf(bindings[k], files))
  }

  /** Before anything else the files of all bindings are read; the first that cannot be read ends the request. */
  method ReadBindingFiles(bindings: seq<Binding>, files: Files) returns (read: Option<seq<Option<Bytes>>>)
    ensures read.Some? <==> AllReadable(bindings, files)
    ensures read.Some? ==> read.value == AllBytes(bindings, files)
  {
    var contents: seq<Option<Bytes>> := [];
    for k := 0 to |bindings|
      invariant AllReadable(bindings[..k], files) && contents == AllBytes(bindings[..k], files)
    {
      assert bindings[..k + 1] == bindings[..k] + [bindings[k]];
      var bytes: Option<Bytes> := None;
      match bindings[k] {
        case SlurpFile(_, file) => bytes := files(file);
        case RawFile(_, file) => bytes := files(file);
        case _ =>
      }
      if FileOf(bindings[k]).Some? && bytes.None? {
        return None;
      }
      contents := contents + [bytes];
    }
    assert bindings[..|bindings|] == bindings;
    return Some(contents);
  }

  // ----- The fold over the four kinds -----

  function Offers(schema: Option<Value>, bindings: seq<Binding>, files: Files, eval: Evaluator): seq<Offer>
  {
    (if schema.Some? then [Entry("$__schema", schema)] else []) +
    seq(|bindings|, k requires 0 <= k < |bindings| =>
      Entry("$" + bindings[k].name, eval(bindings[k], BytesOf(bindings[k], files))))
  }

  /** Only winners are evaluated, so only a winner's value can fail. */
  predicate AllEvaluate(winners: seq<Offer>)
  {
    forall k :: 0 <= k < |winners| ==> winners[k].value.Some?
  }

  function Evaluated(winners: seq<Offer>): seq<Entry<Value>>
    requires AllEvaluate(winners)
  {
    seq(|winners|, k requires 0 <= k < |winners| => Entry(winners[k].key, winners[k].value.value))
  }

  /** The fold over the bindings and the bytes read for them. */
  method BindValues(schema: Option<Value>, bindings: seq<Binding>, read: seq<Option<Bytes>>, eval: Evaluator,
                    ghost files: Files)
    returns (bound: Option<seq<Entry<Value>>>)
    requires read == AllBytes(bindings, files)
    ensures bound.Some? <==> AllEvaluate(FirstWins(Offers(schema, bindings, files, eval)))
    ensures bound.Some? ==> bound.value == Evaluated(FirstWins(Offers(schema, bindings, files, eval)))
  {
    hide FirstWins, HasKey, Offers, AllEvaluate, Evaluated;
    ghost var offers := Offers(schema, bindings, files, eval);
    ghost var n := if schema.Some? then 1 else 0;
    var values: seq<Entry<Value>> := [];
    var names: seq<string> := [];
    NoOffers();
    OffersSize(schema, bindings, files, eval);
    assert forall name :: !HasKey(offers[..0], name);
    if schema.Some? {
      NextOffer(offers, 0);
      values := values + [Entry("$__schema", schema.value)];
      names := names + ["$__schema"];
    }
    for k := 0 to |bindings|
      invariant AllEvaluate(FirstWins(offers[..n + k])) && values == Evaluated(FirstWins(offers[..n + k]))
      invariant forall name :: name in names <==> HasKey(offers[..n + k], name)
    {
      var binding := bindings[k];
      var key := "$" + binding.name;
      OfferAt(schema, bindings, files, eval, k);
      NextOffer(offers, n + k);
      if key in names {
        continue;
      }
      names := names + [key];
      var value := eval(binding, read[k]);
      if value.None? {
        OfferFails(offers, n + k);
        return None;
      }
      values := values + [Entry(key, value.value)];
    }
    assert offers[..n + |bindings|] == offers;
    return Some(values);
  }

  lemma NoOffers()
    ensures FirstWins<Option<Value>>([]) == [] && AllEvaluate([]) && Evaluated([]) == []
    ensures forall name :: !HasKey<Option<Value>>([], name)
  {
  }

  lemma OffersSize(schema: Option<Value>, bindings: seq<Binding>, files: Files, eval: Evaluator)
    ensures var offers, n := Offers(schema, bindings, files, eval), if schema.Some? then 1 else 0;
            |offers| == n + |bindings| && offers[..0] == [] &&
            (schema.Some? ==> offers[0] == Entry("$__schema", schema) && OneName(offers[..1], "$__schema"))
  {
    if schema.Some? {
      var offers := Offers(schema, bindings, files, eval);
      assert offers[..1] == [offers[0]];
    }
  }

  ghost predicate OneName(offers: seq<Offer>, only: string)
  {
    forall name :: HasKey(offers, name) <==> name == only
  }

  /** One more offer: it wins exactly when its name is new. */
  lemma NextOffer(offers: seq<Offer>, j: nat)
    requires j < |offers|
    ensures forall key :: HasKey(offers[..j + 1], key) <==> offers[j].key == key || HasKey(offers[..j], key)
    ensures HasKey(offers[..j], offers[j].key) ==> FirstWins(offers[..j + 1]) == FirstWins(offers[..j])
    ensures !HasKey(offers[..j], offers[j].key) && offers[j].value.Some? && AllEvaluate(FirstWins(offers[..j])) ==>
              AllEvaluate(FirstWins(offers[..j + 1])) &&
              Evaluated(FirstWins(offers[..j + 1])) ==
              Evaluated(FirstWins(offers[..j])) + [Entry(offers[j].key, offers[j].value.value)]
  {
    assert offers[..j + 1] == offers[..j] + [offers[j]];
    HasKeysAppend(offers[..j], offers[j]);
    WinnersAppend(offers[..j], offers[j]);
  }

  lemma OfferFails(offers: seq<Offer>, j: nat)
    requires j < |offers| && !HasKey(offers[..j], offers[j].key) && offers[j].value.None?
    ensures !AllEvaluate(FirstWins(offers))
  {
    hide FirstWins, HasKey;
    var at := |FirstWins(offers[..j])|;
    assert offers[..j + 1] == offers[..j] + [offers[j]];
    WinnersAppend(offers[..j], offers[j]);
    WinnersGrow(offers, j + 1, at);
    assert FirstWins(offers)[at] == offers[j];
  }

  lemma OfferAt(schema: Option<Value>, bindings: seq<Binding>, files: Files, eval: Evaluator, k: nat)
    requires k < |bindings|
    ensures var offers, n := Offers(schema, bindings, files, eval), if schema.Some? then 1 else 0;
            |offers| == n + |bindings| &&
            offers[n + k] == Entry("$" + bindings[k].name, eval(bindings[k], BytesOf(bindings[k], files)))
  {
  }

  lemma HasKeysAppend<V>(offers: seq<Entry<V>>, e: Entry<V>)
    ensures forall key :: HasKey(offers + [e], key) <==> e.key == key || HasKey(offers, key)
  {
    forall key: string
      ensures HasKey(offers + [e], key) <==> e.key == key || HasKey(offers, key)
    {
      HasKeyIn(offers, e, key);
    }
  }

  /** A winner of a prefix is a winner of the whole. */
  lemma {:induction false} WinnersGrow<V>(offers: seq<Entry<V>>, n: nat, k: nat)
    requires n <= |offers| && k < |FirstWins(offers[..n])|
    ensures k < |FirstWins(offers)| && FirstWins(offers)[k] == FirstWins(offers[..n])[k]
    decreases |offers| - n
  {
    if n == |offers| {
      assert offers[..n] == offers;
    } else {
      assert offers[..n + 1] == offers[..n] + [offers[n]];
      WinnersAppend(offers[..n], offers[n]);
      WinnersGrow(offers, n + 1, k);
    }
  }

  // ----- `$ARGS` -----

  function Stripped(entries: seq<Entry<Value>>): (r: seq<Entry<Value>>)
    requires forall k :: 0 <= k < |entries| ==> entries[k].key != "" && entries[k].key[0] == '$'
  {
    seq(|entries|, k requires 0 <= k < |entries| => Entry(entries[k].key[1..], entries[k].value))
  }

  predicate Dollar(entries: seq<Entry<Value>>)
  {
    forall k :: 0 <= k < |entries| ==> entries[k].key != "" && entries[k].key[0] == '$'
  }

  function ArgsObject(positional: seq<Value>, named: seq<Entry<Value>>): Value
  {
    Constant.ObjectValue([Entry("positional", Constant.ArrayValue(positional)),
                          Entry("named", Constant.ObjectValue(named))])
  }

  /** `$ARGS` from the positional values and the winners; then it replaces any winner of that name. */
  method AddArgs(winners: seq<Entry<Value>>, positional: seq<Value>) returns (env: seq<Entry<Value>>)
    requires Dollar(winners) && Distinct(winners)
    ensures env == Without(winners, "$ARGS") + [Entry("$ARGS", ArgsObject(positional, Stripped(winners)))]
  {
    var occurrences: seq<Entry<Value>> := [];
    for k := 0 to |winners|
      invariant occurrences == Stripped(winners[..k])
    {
      occurrences := occurrences + [Entry(winners[k].key[1..], winners[k].value)];
    }
    assert winners[..|winners|] == winners;
    StrippedDistinct(winners);
    DistinctStays(occurrences);
    var named := FinishOccurrences(occurrences);
    ghost var pair := [Entry("positional", Constant.ArrayValue(positional)),
                       Entry("named", Constant.ObjectValue(named))];
    DistinctStays(pair);
    var fields := FinishOccurrences([Entry("positional", Constant.ArrayValue(positional)),
                                     Entry("named", Constant.ObjectValue(named))]);
    env := Retain(winners, "$ARGS");
    env := env + [Entry("$ARGS", Constant.ObjectValue(fields))];
  }

  lemma StrippedDistinct(winners: seq<Entry<Value>>)
    requires Dollar(winners) && Distinct(winners)
    ensures Distinct(Stripped(winners))
  {
    var names := Stripped(winners);
    forall i, k | 0 <= i < k < |names|
      ensures names[i].key != names[k].key
    {
      assert winners[i].key == ['$'] + names[i].key && winners[k].key == ['$'] + names[k].key;
    }
  }

  method Retain(entries: seq<Entry<Value>>, key: string) returns (kept: seq<Entry<Value>>)
    ensures kept == Without(entries, key)
  {
    kept := [];
    for k := 0 to |entries|
      invariant kept == Without(entries[..k], key)
    {
      assert entries[..k + 1] == entries[..k] + [entries[k]];
      WithoutAppend(entries[..k], entries[k], key);
      if entries[k].key != key {
        kept := kept + [entries[k]];
      }
    }
    assert entries[..|entries|] == entries;
  }

  // ----- The whole environment -----

  /** What a request offers for its environment. `schema` is the file of `--schema`. */
  datatype Request = Request(schema: Option<string>, bindings: seq<Binding>, positional: seq<Option<Value>>)

  /** The schema document's value, when there is a schema and it can be read and parsed. */
  function SchemaValue(request: Request, files: Files, parse: Bytes -> Option<Value>): Option<Value>
  {
    if request.schema.None? then None
    else
      match files(request.schema.value)
      case None => None
      case Some(bytes) => parse(bytes)
  }

  function Winners(request: Request, files: Files, eval: Evaluator, parse: Bytes -> Option<Value>): seq<Offer>
  {
    FirstWins(Offers(SchemaValue(request, files, parse), request.bindings, files, eval))
  }

  /** A request succeeds exactly when the files of all bindings, losers included, can be read, the schema can be read
      and parsed, every winner's value evaluates, and every positional value does. */
  predicate Succeeds(request: Request, files: Files, eval: Evaluator, parse: Bytes -> Option<Value>)
  {
    AllReadable(request.bindings, files) &&
    (request.schema.Some? ==> SchemaValue(request, files, parse).Some?) &&
    AllEvaluate(Winners(request, files, eval, parse)) &&
    forall k :: 0 <= k < |request.positional| ==> request.positional[k].Some?
  }

  /** Files, schema, bindings, positional values, then `$ARGS`; the first failure fails the request. */
  method BuildEnvironment(request: Request, files: Files, eval: Evaluator, parse: Bytes -> Option<Value>)
    returns (env: Option<seq<Entry<Value>>>)
    ensures env.Some? <==> Succeeds(request, files, eval, parse)
    ensures env.Some? ==>
              var winners := Evaluated(Winners(request, files, eval, parse));
              Dollar(winners) &&
              env.value == Without(winners, "$ARGS") +
                           [Entry("$ARGS", ArgsObject(Values(request.positional), Stripped(winners)))]
  {
    hide FirstWins, AllReadable, AllEvaluate;
    var read := ReadBindingFiles(request.bindings, files);
    if read.None? {
      return None;
    }
    var schema: Option<Value> := None;
    if request.schema.Some? {
      var bytes := files(request.schema.value);
      if bytes.None? {
        return None;
      }
      schema := parse(bytes.value);
      if schema.None? {
        return None;
      }
    }
    var bound := BindValues(schema, request.bindings, read.value, eval, files);
    if bound.None? {
      return None;
    }
    var values := PositionalValues(request.positional);
    if values.None? {
      return None;
    }
    WinnersDollar(schema, request.bindings, files, eval);
    WinnersDistinct(Offers(schema, request.bindings, files, eval));
    var all := AddArgs(bound.value, values.value);
    return Some(all);
  }

  method PositionalValues(positional: seq<Option<Value>>) returns (values: Option<seq<Value>>)
    ensures values.Some? <==> forall k :: 0 <= k < |positional| ==> positional[k].Some?
    ensures values.Some? ==> values.value == Values(positional)
  {
    var all: seq<Value> := [];
    for k := 0 to |positional|
      invariant forall j :: 0 <= j < k ==> positional[j].Some?
      invariant all == Values(positional[..k])
    {
      if positional[k].None? {
        return None;
      }
      all := all + [positional[k].value];
    }
    assert positional[..|positional|] == positional;
    return Some(all);
  }

  /** A losing binding's unreadable file fails the request, although every winner's value evaluates. */
  lemma LoserFails(files: Files, eval: Evaluator, parse: Bytes -> Option<Value>)
    requires files("missing") == None && eval(Arg("a", "1"), None).Some?
    ensures var request := Request(None, [Arg("a", "1"), SlurpFile("a", "missing")], []);
            AllEvaluate(Winners(request, files, eval, parse)) && !Succeeds(request, files, eval, parse)
  {
    var bindings := [Arg("a", "1"), SlurpFile("a", "missing")];
    var offers := Offers(None, bindings, files, eval);
    OfferAt(None, bindings, files, eval, 0);
    OfferAt(None, bindings, files, eval, 1);
    assert "$" + "a" == "$a" && BytesOf(bindings[0], files) == None;
    assert offers[0] == Entry("$a", eval(bindings[0], None)) && offers[1].key == "$a";
    assert Without(offers[1..], "$a") == [] by { assert offers[1..][1..] == []; }
    assert FirstWins(offers) == [offers[0]] + FirstWins<Option<Value>>([]);
    assert Winners(Request(None, bindings, []), files, eval, parse) == [offers[0]];
    assert FileOf(bindings[1]).Some?;
  }

  function Values(positional: seq<Option<Value>>): seq<Value>
    requires forall k :: 0 <= k < |positional| ==> positional[k].Some?
  {
    seq(|positional|, k requires 0 <= k < |positional| => positional[k].value)
  }

  lemma WinnersDollar(schema: Option<Value>, bindings: seq<Binding>, files: Files, eval: Evaluator)
    ensures var winners := FirstWins(Offers(schema, bindings, files, eval));
            forall k :: 0 <= k < |winners| ==> winners[k].key != "" && winners[k].key[0] == '$'
  {
    var offers := Offers(schema, bindings, files, eval);
    var winners := FirstWins(offers);
    forall k | 0 <= k < |winners|
      ensures winners[k].key != "" && winners[k].key[0] == '$'
    {
      assert HasKey(winners, winners[k].key);
      WinnersAreFirst(offers, winners[k].key);
    }
  }

  // ----- What the environment means -----

  lemma {:induction false} EvaluatedLookup(winners: seq<Offer>, key: string)
    requires AllEvaluate(winners)
    ensures HasKey(Evaluated(winners), key) <==> HasKey(winners, key)
    ensures HasKey(winners, key) ==> FirstValue(winners, key) == Some(FirstValue(Evaluated(winners), key))
  {
    if winners != [] {
      EvaluatedLookup(winners[1..], key);
      var first := Entry(winners[0].key, winners[0].value.value);
      assert Evaluated(winners) == [first] + Evaluated(winners[1..]);
      assert winners == [winners[0]] + winners[1..];
      HasKeyCons(first, Evaluated(winners[1..]), key);
      HasKeyCons(winners[0], winners[1..], key);
    }
  }

  lemma {:induction false} StrippedLookup(entries: seq<Entry<Value>>, key: string)
    requires Dollar(entries)
    ensures HasKey(Stripped(entries), key) <==> HasKey(entries, "$" + key)
    ensures HasKey(Stripped(entries), key) ==> FirstValue(Stripped(entries), key) == FirstValue(entries, "$" + key)
  {
    if entries != [] {
      StrippedLookup(entries[1..], key);
      var first := Entry(entries[0].key[1..], entries[0].value);
      assert Stripped(entries) == [first] + Stripped(entries[1..]);
      assert entries == [entries[0]] + entries[1..];
      assert entries[0].key == "$" + first.key;
      assert ("$" + key)[1..] == key;
      HasKeyCons(first, Stripped(entries[1..]), key);
      HasKeyCons(entries[0], entries[1..], "$" + key);
    }
  }

  lemma {:induction false} FirstValueAppend<V>(entries: seq<Entry<V>>, e: Entry<V>, key: string)
    requires e.key == key || HasKey(entries, key)
    ensures HasKey(entries + [e], key)
    ensures FirstValue(entries + [e], key) == if HasKey(entries, key) then FirstValue(entries, key) else e.value
  {
    HasKeyIn(entries, e, key);
    if entries != [] {
      assert entries == [entries[0]] + entries[1..];
      assert entries + [e] == [entries[0]] + (entries[1..] + [e]);
      HasKeyCons(entries[0], entries[1..], key);
      HasKeyCons(entries[0], entries[1..] + [e], key);
      if entries[0].key != key {
        FirstValueAppend(entries[1..], e, key);
      }
    }
  }

  /** Every name but `$ARGS` has its first offer's value, `$ARGS` is the built object, and the object's `named` part has
      every winner, a user's own `ARGS` included. */
  lemma EnvironmentMeans(offers: seq<Offer>, positional: seq<Value>, key: string)
    requires AllEvaluate(FirstWins(offers)) && Dollar(Evaluated(FirstWins(offers)))
    ensures var winners := Evaluated(FirstWins(offers));
            var args := ArgsObject(positional, Stripped(winners));
            var env := Without(winners, "$ARGS") + [Entry("$ARGS", args)];
            Distinct(env) &&
            (HasKey(env, key) <==> key == "$ARGS" || HasKey(offers, key)) &&
            (HasKey(env, key) ==>
               if key == "$ARGS" then FirstValue(env, key) == args
               else FirstValue(offers, key) == Some(FirstValue(env, key))) &&
            Distinct(Stripped(winners)) &&
            (HasKey(Stripped(winners), key) <==> HasKey(offers, "$" + key)) &&
            (HasKey(offers, "$" + key) ==> FirstValue(offers, "$" + key) == Some(FirstValue(Stripped(winners), key)))
  {
    hide FirstWins, FirstValue, HasKey, Without;
    var winners := Evaluated(FirstWins(offers));
    var args := Entry("$ARGS", ArgsObject(positional, Stripped(winners)));
    var kept := Without(winners, "$ARGS");
    WinnersDistinct(offers);
    WinnersAreFirst(offers, key);
    WinnersAreFirst(offers, "$" + key);
    EvaluatedLookup(FirstWins(offers), key);
    EvaluatedLookup(FirstWins(offers), "$" + key);
    StrippedDistinct(winners);
    StrippedLookup(winners, key);
    WithoutFirst(winners, "$ARGS", key);
    HasKeyIn(kept, args, key);
    if HasKey(kept, key) || key == "$ARGS" {
      FirstValueAppend(kept, args, key);
    }
    WithoutDistinct(winners, "$ARGS");
    KeptApart(winners);
  }

  lemma KeptApart(winners: seq<Entry<Value>>)
    ensures forall k :: 0 <= k < |Without(winners, "$ARGS")| ==> Without(winners, "$ARGS")[k].key != "$ARGS"
  {
    var kept := Without(winners, "$ARGS");
    forall k | 0 <= k < |kept|
      ensures kept[k].key != "$ARGS"
    {
      assert HasKey(kept, kept[k].key);
      WithoutFirst(winners, "$ARGS", kept[k].key);
    }
  }

  /** What `$ARGS` holds: exactly two fields, the positional values in order and the object of the winners. */
  lemma ArgsHolds(positional: seq<Value>, named: seq<Entry<Value>>)
    ensures var args := ArgsObject(positional, named);
            args.ObjectValue? && Distinct(args.entries) &&
            (forall key :: HasKey(args.entries, key) <==> key == "positional" || key == "named") &&
            FirstValue(args.entries, "positional") == Constant.ArrayValue(positional) &&
            FirstValue(args.entries, "named") == Constant.ObjectValue(named)
  {
    var entries := ArgsObject(positional, named).entries;
    assert entries[0].key == "positional" && entries[1].key == "named" && |"named"| == 5 && |"positional"| == 10;
    assert entries[1..][0] == entries[1];
  }

  /** A request's environment in the request's own terms. Its names are `$ARGS`, `$__schema` when there is a schema, and
      a dollar sign before each binding's name. The first binding of a name gives that name's value, the schema document
      goes before any binding of its name, `$ARGS` goes before any binding of its own, and `named` holds them all. */
  lemma RequestMeans(request: Request, files: Files, eval: Evaluator, parse: Bytes -> Option<Value>, k: nat)
    requires Succeeds(request, files, eval, parse)
    requires k < |request.bindings| && forall j :: 0 <= j < k ==> request.bindings[j].name != request.bindings[k].name
    requires request.schema.Some? ==> request.bindings[k].name != "__schema"
    ensures var winners := Evaluated(Winners(request, files, eval, parse));
            var b := request.bindings[k];
            var bytes := match b
                         case SlurpFile(_, file) => files(file)
                         case RawFile(_, file) => files(file)
                         case _ => None;
            Dollar(winners) &&
            var args := ArgsObject(Values(request.positional), Stripped(winners));
            var env := Without(winners, "$ARGS") + [Entry("$ARGS", args)];
            HasKey(env, "$" + b.name) && HasKey(Stripped(winners), b.name) &&
            (b.name != "ARGS" ==> eval(b, bytes) == Some(FirstValue(env, "$" + b.name))) &&
            eval(b, bytes) == Some(FirstValue(Stripped(winners), b.name))
  {
    hide FirstWins, HasKey, FirstValue, Winners, Stripped, Evaluated, Offers, BytesOf, Without, ArgsObject;
    var schema := SchemaValue(request, files, parse);
    var offers := Offers(schema, request.bindings, files, eval);
    var key := "$" + request.bindings[k].name;
    WinnersAre(request, files, eval, parse);
    FirstOffer(schema, request.bindings, files, eval, k);
    WinnersDollar(schema, request.bindings, files, eval);
    EvaluatedDollar(FirstWins(offers));
    EnvironmentMeans(offers, Values(request.positional), key);
    EnvironmentMeans(offers, Values(request.positional), request.bindings[k].name);
    assert key[1..] == request.bindings[k].name && "$ARGS"[1..] == "ARGS";
    BytesAre(request.bindings[k], files);
  }

  /** The schema document is bound under its own name, whatever the bindings are. */
  lemma SchemaMeans(request: Request, files: Files, eval: Evaluator, parse: Bytes -> Option<Value>)
    requires Succeeds(request, files, eval, parse) && request.schema.Some?
    ensures var winners := Evaluated(Winners(request, files, eval, parse));
            files(request.schema.value).Some? && HasKey(winners, "$__schema") &&
            parse(files(request.schema.value).value) == Some(FirstValue(winners, "$__schema"))
  {
    hide FirstWins, HasKey, FirstValue, Winners, Evaluated, Offers;
    var schema := SchemaValue(request, files, parse);
    var offers := Offers(schema, request.bindings, files, eval);
    WinnersAre(request, files, eval, parse);
    SchemaOffer(schema, request.bindings, files, eval);
    WinnersAreFirst(offers, "$__schema");
    EvaluatedLookup(FirstWins(offers), "$__schema");
  }

  /** No other name is bound. */
  lemma OnlyNames(request: Request, files: Files, eval: Evaluator, parse: Bytes -> Option<Value>, key: string)
    requires Succeeds(request, files, eval, parse)
    ensures HasKey(Evaluated(Winners(request, files, eval, parse)), key) <==>
            (request.schema.Some? && key == "$__schema") ||
            exists k :: 0 <= k < |request.bindings| && key == "$" + request.bindings[k].name
  {
    hide FirstWins, HasKey, FirstValue, Winners, Evaluated, Offers;
    var schema := SchemaValue(request, files, parse);
    var offers := Offers(schema, request.bindings, files, eval);
    WinnersAre(request, files, eval, parse);
    OfferNames(schema, request.bindings, files, eval, key);
    WinnersAreFirst(offers, key);
    EvaluatedLookup(FirstWins(offers), key);
  }

  lemma WinnersAre(request: Request, files: Files, eval: Evaluator, parse: Bytes -> Option<Value>)
    ensures Winners(request, files, eval, parse) ==
            FirstWins(Offers(SchemaValue(request, files, parse), request.bindings, files, eval))
  {
  }

  lemma BytesAre(b: Binding, files: Files)
    ensures BytesOf(b, files) == match b
                                 case SlurpFile(_, file) => files(file)
                                 case RawFile(_, file) => files(file)
                                 case _ => None
  {
  }

  lemma EvaluatedDollar(winners: seq<Offer>)
    requires AllEvaluate(winners)
    requires forall k :: 0 <= k < |winners| ==> winners[k].key != "" && winners[k].key[0] == '$'
    ensures Dollar(Evaluated(winners))
  {
  }

  /** The first entry of a key is the one its lookup finds. */
  lemma {:induction false} FirstAt<V>(entries: seq<Entry<V>>, k: nat)
    requires k < |entries| && forall j :: 0 <= j < k ==> entries[j].key != entries[k].key
    ensures HasKey(entries, entries[k].key) && FirstValue(entries, entries[k].key) == entries[k].value
  {
    if k > 0 {
      assert entries[0].key != entries[k].key;
      assert forall j :: 0 <= j < k - 1 ==> entries[1..][j] == entries[j + 1];
      FirstAt(entries[1..], k - 1);
    }
  }

  lemma FirstOffer(schema: Option<Value>, bindings: seq<Binding>, files: Files, eval: Evaluator, k: nat)
    requires k < |bindings| && forall j :: 0 <= j < k ==> bindings[j].name != bindings[k].name
    requires schema.Some? ==> bindings[k].name != "__schema"
    ensures var offers, key := Offers(schema, bindings, files, eval), "$" + bindings[k].name;
            HasKey(offers, key) && FirstValue(offers, key) == eval(bindings[k], BytesOf(bindings[k], files))
  {
    hide HasKey, FirstValue, Offers, BytesOf;
    var offers := Offers(schema, bindings, files, eval);
    var n := if schema.Some? then 1 else 0;
    OfferAt(schema, bindings, files, eval, k);
    OffersSize(schema, bindings, files, eval);
    forall j | 0 <= j < n + k
      ensures offers[j].key != offers[n + k].key
    {
      if j < n {
        assert "$__schema"[1..] == "__schema" && offers[n + k].key[1..] == bindings[k].name;
      } else {
        OfferAt(schema, bindings, files, eval, j - n);
        assert offers[j].key[1..] == bindings[j - n].name && offers[n + k].key[1..] == bindings[k].name;
      }
    }
    FirstAt(offers, n + k);
  }

  lemma SchemaOffer(schema: Option<Value>, bindings: seq<Binding>, files: Files, eval: Evaluator)
    requires schema.Some?
    ensures var offers := Offers(schema, bindings, files, eval);
            HasKey(offers, "$__schema") && FirstValue(offers, "$__schema") == schema
  {
    FirstAt(Offers(schema, bindings, files, eval), 0);
  }

  lemma OfferNames(schema: Option<Value>, bindings: seq<Binding>, files: Files, eval: Evaluator, key: string)
    ensures HasKey(Offers(schema, bindings, files, eval), key) <==>
            (schema.Some? && key == "$__schema") || exists k :: 0 <= k < |bindings| && key == "$" + bindings[k].name
  {
    var offers := Offers(schema, bindings, files, eval);
    var n := if schema.Some? then 1 else 0;
    if HasKey(offers, key) {
      var j :| 0 <= j < |offers| && offers[j].key == key;
      if j >= n {
        assert key == "$" + bindings[j - n].name;
      }
    }
    if schema.Some? {
      assert offers[0].key == "$__schema";
    }
    forall k | 0 <= k < |bindings|
      ensures offers[n + k].key == "$" + bindings[k].name
    {
    }
  }
}
