/** Constant folding of the literal subset of expressions, sound against their output streams. */
module Constant {
  import opened Bytes
  import opened ObjectBuilder
  import opened SortedBuilder

  datatype Result<+T> = Ok(value: T) | Err(error: Error)

  /** `Parse` covers text that does not decode; `Unsupported` a construct outside the constant subset. */
  datatype Error = Parse | Unsupported

  datatype Value =
    | NullValue
    | BoolValue(b: bool)
    | NumberValue(number: string)
    | StringValue(text: string)
    | ArrayValue(items: seq<Value>)
    | ObjectValue(entries: seq<Entry<Value>>)

  datatype Expr =
    | Null
    | Bool(b: bool)
    | Number(spelling: string)
    | Str(template: Template)
    | Group(inner: Expr)
    | Array(generator: Option<Expr>)
    | Object(members: seq<Member>)
    | Comma(left: Expr, right: Expr)
    | Dynamic(id: nat)  // every other expression form

  datatype Template = Template(segments: seq<Segment>)

  datatype Segment = Literal(raw: string) | Hole(e: Expr) | OtherSegment

  datatype Key =
    | NameKey(name: string)
    | StringKey(template: Template)
    | VariableKey(id: nat)
    | ExprKey(e: Expr)
    | OtherKey

  datatype Member = Member(key: Key, value: Option<Expr>)

  /** How the source text decodes: number spellings, literal segments, bare key names. */
  datatype Source = Source(number: string -> Option<string>, literal: string -> Option<string>,
                           name: string -> Option<string>)

  // ----- The evaluator as functions -----

  function SegmentsText(segments: seq<Segment>, src: Source): Result<Option<string>>
  {
    if segments == [] then Ok(Some(""))
    else
      match segments[0]
      case Hole(_) => Ok(None)
      case OtherSegment => Err(Unsupported)
      case Literal(raw) =>
        match src.literal(raw)
        case None => Err(Parse)
        case Some(text) =>
          match SegmentsText(segments[1..], src)
          case Ok(Some(rest)) => Ok(Some(text + rest))
          case other => other
  }

  function KeyText(key: Key, src: Source): Result<string>
  {
    match key
    case NameKey(name) => (match src.name(name) case Some(text) => Ok(text) case None => Err(Parse))
    case StringKey(template) =>
      (match SegmentsText(template.segments, src)
       case Ok(Some(text)) => Ok(text)
       case Ok(None) => Err(Unsupported)
       case Err(error) => Err(error))
    case VariableKey(_) => Err(Unsupported)
    case ExprKey(_) => Err(Unsupported)
    case OtherKey => Err(Unsupported)
  }

  function NumberOf(spelling: string, src: Source): Result<Value>
  {
    match src.number(spelling)
    case Some(n) => Ok(NumberValue(n))
    case None => Err(Parse)
  }

  function StringOf(template: Template, src: Source): Result<Value>
  {
    match SegmentsText(template.segments, src)
    case Ok(Some(text)) => Ok(StringValue(text))
    case Ok(None) => Err(Unsupported)
    case Err(error) => Err(error)
  }

  /** What a fold appended, and how it ended. */
  datatype Fold = Fold(appended: seq<Value>, outcome: Result<bool>)

  function Constant(e: Expr, src: Source): Result<Value>
    decreases e, 0
  {
    match e
    case Null => Ok(NullValue)
    case Bool(b) => Ok(BoolValue(b))
    case Number(spelling) => NumberOf(spelling, src)
    case Str(template) => StringOf(template, src)
    case Group(inner) => Constant(inner, src)
    case Array(None) => Ok(ArrayValue([]))
    case Array(Some(generator)) =>
      var fold := ConstantSeq(generator, src);
      (match fold.outcome
       case Ok(true) => Ok(ArrayValue(fold.appended))
       case Ok(false) => Err(Unsupported)
       case Err(error) => Err(error))
    case Object(members) =>
      (match MemberEntries(members, src)
       case Ok(entries) => Ok(ObjectValue(Deduplicated(entries)))
       case Err(error) => Err(error))
    case Comma(_, _) => Err(Unsupported)
    case Dynamic(_) => Err(Unsupported)
  }

  function MemberEntry(m: Member, src: Source): Result<Entry<Value>>
    decreases m
  {
    match KeyText(m.key, src)
    case Err(error) => Err(error)
    case Ok(key) =>
      match m.value
      case None => Err(Unsupported)
      case Some(e) =>
        match Constant(e, src)
        case Err(error) => Err(error)
        case Ok(value) => Ok(Entry(key, value))
  }

  /** The occurrences a member list hands to the builder, in order; the first failure ends it. */
  function MemberEntries(members: seq<Member>, src: Source): Result<seq<Entry<Value>>>
    decreases members
  {
    if members == [] then Ok([])
    else
      match MemberEntry(members[0], src)
      case Err(error) => Err(error)
      case Ok(entry) =>
        match MemberEntries(members[1..], src)
        case Err(error) => Err(error)
        case Ok(rest) => Ok([entry] + rest)
  }

  function ConstantSeq(e: Expr, src: Source): Fold
    decreases e, 1
  {
    if e.Comma? then
      var left := ConstantSeq(e.left, src);
      if left.outcome != Ok(true) then left
      else
        var right := ConstantSeq(e.right, src);
        Fold(left.appended + right.appended, right.outcome)
    else
      match Constant(e, src)
      case Ok(value) => Fold([value], Ok(true))
      case Err(Unsupported) => Fold([], Ok(false))
      case Err(Parse) => Fold([], Err(Parse))
  }

  // ----- The reference semantics: every expression is a stream of outputs that may end in an error -----

  datatype Stream = Stream(outputs: seq<Value>, complete: bool)

  function Single(v: Value): Stream { Stream([v], true) }

  /** `a, b`: the outputs of `a`, then those of `b` unless `a` raised. */
  function Then(a: Stream, b: Stream): Stream
  {
    if a.complete then Stream(a.outputs + b.outputs, b.complete) else a
  }

  /** The streams of the forms this module does not interpret: any assignment at all. */
  datatype World = World(stream: Expr -> Stream)

  function Eval(e: Expr, src: Source, w: World): Stream
    decreases e, 0
  {
    match e
    case Null => Single(NullValue)
    case Bool(b) => Single(BoolValue(b))
    case Number(spelling) =>
      (match src.number(spelling) case Some(n) => Single(NumberValue(n)) case None => w.stream(e))
    case Str(template) =>
      (match PlainText(template.segments, src) case Some(text) => Single(StringValue(text)) case None => w.stream(e))
    case Group(inner) => Eval(inner, src, w)
    case Array(None) => Single(ArrayValue([]))
    case Array(Some(generator)) =>
      var inner := Eval(generator, src, w);
      if inner.complete then Single(ArrayValue(inner.outputs)) else Stream([], false)
    case Object(members) =>
      (match EvalMembers(members, src, w)
       case Some(entries) => Single(ObjectValue(InsertAll(entries)))
       case None => w.stream(e))
    case Comma(left, right) => Then(Eval(left, src, w), Eval(right, src, w))
    case Dynamic(_) => w.stream(e)
  }

  /** The text of a template made of decodable literals only. */
  function PlainText(segments: seq<Segment>, src: Source): Option<string>
  {
    if segments == [] then Some("")
    else if !segments[0].Literal? then None
    else
      match (src.literal(segments[0].raw), PlainText(segments[1..], src))
      case (Some(text), Some(rest)) => Some(text + rest)
      case _ => None
  }

  function EvalKey(key: Key, src: Source): Option<string>
  {
    match key
    case NameKey(name) => src.name(name)
    case StringKey(template) => PlainText(template.segments, src)
    case _ => None
  }

  /** Key and value of each member when both are single-valued; any other object constructor is left to the world. */
  function EvalMembers(members: seq<Member>, src: Source, w: World): Option<seq<Entry<Value>>>
    decreases members
  {
    if members == [] then Some([])
    else
      match (EvalMember(members[0], src, w), EvalMembers(members[1..], src, w))
      case (Some(entry), Some(rest)) => Some([entry] + rest)
      case _ => None
  }

  function EvalMember(m: Member, src: Source, w: World): Option<Entry<Value>>
    decreases m
  {
    match EvalKey(m.key, src)
    case None => None
    case Some(key) =>
      match m.value
      case None => None
      case Some(e) =>
        var s := Eval(e, src, w);
        if s.complete && |s.outputs| == 1 then Some(Entry(key, s.outputs[0])) else None
  }

  // ----- Soundness -----

  lemma {:induction false} TextSound(segments: seq<Segment>, src: Source)
    ensures forall text :: SegmentsText(segments, src) == Ok(Some(text)) <==> PlainText(segments, src) == Some(text)
  {
    if segments != [] {
      TextSound(segments[1..], src);
    }
  }

  lemma {:induction false} ConstantSound(e: Expr, src: Source, w: World)
    ensures Constant(e, src).Ok? ==> Eval(e, src, w) == Single(Constant(e, src).value)
    decreases e, 0
  {
    match e
    case Str(template) => TextSound(template.segments, src);
    case Group(inner) => ConstantSound(inner, src, w);
    case Array(Some(generator)) => SeqSound(generator, src, w);
    case Object(members) =>
      MembersSound(members, src, w);
      if MemberEntries(members, src).Ok? {
        CollapseIsInsertion(MemberEntries(members, src).value);
      }
    case _ =>
  }

  lemma {:induction false} MembersSound(members: seq<Member>, src: Source, w: World)
    ensures MemberEntries(members, src).Ok? ==> EvalMembers(members, src, w) == Some(MemberEntries(members, src).value)
    decreases members
  {
    if members != [] {
      MemberSound(members[0], src, w);
      MembersSound(members[1..], src, w);
    }
  }

  lemma {:induction false} MemberSound(m: Member, src: Source, w: World)
    ensures MemberEntry(m, src).Ok? ==> EvalMember(m, src, w) == Some(MemberEntry(m, src).value)
    decreases m
  {
    if m.key.StringKey? {
      TextSound(m.key.template.segments, src);
    }
    if m.value.Some? {
      ConstantSound(m.value.value, src, w);
    }
  }

  /** A fold that succeeds appended the whole stream in order; any other fold appended a prefix of it. */
  lemma {:induction false} SeqSound(e: Expr, src: Source, w: World)
    ensures var fold, s := ConstantSeq(e, src), Eval(e, src, w);
            (fold.outcome == Ok(true) ==> s == Stream(fold.appended, true)) && fold.appended <= s.outputs
    decreases e, 1
  {
    if e.Comma? {
      SeqSound(e.left, src, w);
      SeqSound(e.right, src, w);
    } else {
      ConstantSound(e, src, w);
    }
  }

  // ----- Exactly which expressions fold -----

  predicate IsConstant(e: Expr, src: Source)
    decreases e, 0
  {
    match e
    case Null => true
    case Bool(_) => true
    case Number(spelling) => src.number(spelling).Some?
    case Str(template) => PlainText(template.segments, src).Some?
    case Group(inner) => IsConstant(inner, src)
    case Array(generator) => generator.Some? ==> IsConstantList(generator.value, src)
    case Object(members) =>
      forall m <- members :: EvalKey(m.key, src).Some? && m.value.Some? && IsConstant(m.value.value, src)
    case Comma(_, _) => false
    case Dynamic(_) => false
  }

  /** Commas count only at the top of an array body: a parenthesised comma does not fold. */
  predicate IsConstantList(e: Expr, src: Source)
    decreases e, 1
  {
    if e.Comma? then IsConstantList(e.left, src) && IsConstantList(e.right, src) else IsConstant(e, src)
  }

  lemma {:induction false} ConstantComplete(e: Expr, src: Source)
    ensures Constant(e, src).Ok? <==> IsConstant(e, src)
    decreases e, 0
  {
    match e
    case Str(template) => TextSound(template.segments, src);
    case Group(inner) => ConstantComplete(inner, src);
    case Array(Some(generator)) => ListComplete(generator, src);
    case Object(members) => MembersComplete(members, src);
    case _ =>
  }

  lemma {:induction false} MembersComplete(members: seq<Member>, src: Source)
    ensures MemberEntries(members, src).Ok? <==>
            forall m <- members :: EvalKey(m.key, src).Some? && m.value.Some? && IsConstant(m.value.value, src)
    decreases members
  {
    if members != [] {
      MemberComplete(members[0], src);
      MembersComplete(members[1..], src);
      assert members == [members[0]] + members[1..];
    }
  }

  lemma {:induction false} MemberComplete(m: Member, src: Source)
    ensures MemberEntry(m, src).Ok? <==> EvalKey(m.key, src).Some? && m.value.Some? && IsConstant(m.value.value, src)
    decreases m
  {
    if m.key.StringKey? {
      TextSound(m.key.template.segments, src);
    }
    if m.value.Some? {
      ConstantComplete(m.value.value, src);
    }
  }

  lemma {:induction false} ListComplete(e: Expr, src: Source)
    ensures ConstantSeq(e, src).outcome == Ok(true) <==> IsConstantList(e, src)
    decreases e, 1
  {
    if e.Comma? {
      ListComplete(e.left, src);
      ListComplete(e.right, src);
    } else {
      ConstantComplete(e, src);
    }
  }

  // ----- Exactly how the others fail -----

  /** Everything in the way of a fold, in the order in which evaluation meets it: text that does not decode, and
      constructs outside the subset. Nothing is looked for inside such a construct. */
  function Obstacles(e: Expr, src: Source): seq<Error>
    decreases e, 0
  {
    match e
    case Null => []
    case Bool(_) => []
    case Number(spelling) => Undecoded(src.number(spelling))
    case Str(template) => TextObstacles(template.segments, src)
    case Group(inner) => Obstacles(inner, src)
    case Array(generator) => if generator.Some? then ListObstacles(generator.value, src) else []
    case Object(members) => MemberObstacles(members, src)
    case Comma(_, _) => [Unsupported]
    case Dynamic(_) => [Unsupported]
  }

  function Undecoded(text: Option<string>): seq<Error> { if text.Some? then [] else [Parse] }

  function TextObstacles(segments: seq<Segment>, src: Source): seq<Error>
  {
    if segments == [] then []
    else
      (match segments[0] case Literal(raw) => Undecoded(src.literal(raw)) case _ => [Unsupported]) +
      TextObstacles(segments[1..], src)
  }

  function KeyObstacles(key: Key, src: Source): seq<Error>
  {
    match key
    case NameKey(name) => Undecoded(src.name(name))
    case StringKey(template) => TextObstacles(template.segments, src)
    case _ => [Unsupported]
  }

  function MemberObstacles(members: seq<Member>, src: Source): seq<Error>
    decreases members
  {
    if members == [] then []
    else OneMember(members[0], src) + MemberObstacles(members[1..], src)
  }

  /** The key's, and then the value's; a shorthand member has none. */
  function OneMember(m: Member, src: Source): seq<Error>
    decreases m
  {
    KeyObstacles(m.key, src) + if m.value.Some? then Obstacles(m.value.value, src) else [Unsupported]
  }

  /** In a list the commas at the top are no obstacles. */
  function ListObstacles(e: Expr, src: Source): seq<Error>
    decreases e, 1
  {
    if e.Comma? then ListObstacles(e.left, src) + ListObstacles(e.right, src) else Obstacles(e, src)
  }

  /** How a result ends by its obstacles: with none it succeeds, otherwise with the first. */
  predicate Ends<T>(r: Result<T>, obstacles: seq<Error>)
  {
    match r
    case Ok(_) => obstacles == []
    case Err(error) => obstacles != [] && error == obstacles[0]
  }

  predicate FoldEnds(r: Result<bool>, obstacles: seq<Error>)
  {
    if obstacles == [] then r == Ok(true)
    else if obstacles[0] == Unsupported then r == Ok(false)
    else r == Err(Parse)
  }

  lemma {:induction false} TextFails(segments: seq<Segment>, src: Source)
    ensures match SegmentsText(segments, src)
            case Ok(Some(_)) => TextObstacles(segments, src) == []
            case Ok(None) => TextObstacles(segments, src) != [] && TextObstacles(segments, src)[0] == Unsupported
            case Err(error) => TextObstacles(segments, src) != [] && TextObstacles(segments, src)[0] == error
  {
    if segments != [] {
      TextFails(segments[1..], src);
    }
  }

  /** The first obstacle decides: text that does not decode ends evaluation in a parse error, a construct outside the
      subset, if it comes first, declines. */
  lemma {:induction false} ConstantFails(e: Expr, src: Source)
    ensures Ends(Constant(e, src), Obstacles(e, src))
    decreases e, 0
  {
    match e
    case Str(template) => TextFails(template.segments, src);
    case Group(inner) => ConstantFails(inner, src);
    case Array(Some(generator)) => ListFails(generator, src);
    case Object(members) => MembersFail(members, src);
    case _ =>
  }

  lemma {:induction false} MembersFail(members: seq<Member>, src: Source)
    ensures Ends(MemberEntries(members, src), MemberObstacles(members, src))
    decreases members
  {
    if members != [] {
      MemberFails(members[0], src);
      MembersFail(members[1..], src);
    }
  }

  lemma {:induction false} MemberFails(m: Member, src: Source)
    ensures Ends(MemberEntry(m, src), OneMember(m, src))
    decreases m
  {
    if m.key.StringKey? {
      TextFails(m.key.template.segments, src);
    }
    if m.value.Some? {
      ConstantFails(m.value.value, src);
    }
  }

  lemma {:induction false} ListFails(e: Expr, src: Source)
    ensures FoldEnds(ConstantSeq(e, src).outcome, ListObstacles(e, src))
    decreases e, 1
  {
    if e.Comma? {
      ListFails(e.left, src);
      ListFails(e.right, src);
    } else {
      ConstantFails(e, src);
    }
  }

  /** Everything in the source text decodes. */
  ghost predicate Decodes(src: Source)
  {
    forall text :: src.number(text).Some? && src.literal(text).Some? && src.name(text).Some?
  }

  /** Then no expression ends in a parse error: a fold is declined, never broken off. */
  lemma {:induction false} NeverParse(e: Expr, src: Source)
    requires Decodes(src)
    ensures Constant(e, src) != Err(Parse) && ConstantSeq(e, src).outcome != Err(Parse)
    decreases e
  {
    match e
    case Str(template) => TextDecodes(template.segments, src);
    case Group(inner) => NeverParse(inner, src);
    case Array(Some(generator)) => NeverParse(generator, src);
    case Object(members) => MembersDecode(members, src);
    case Comma(left, right) =>
      NeverParse(left, src);
      NeverParse(right, src);
    case _ =>
  }

  lemma {:induction false} TextDecodes(segments: seq<Segment>, src: Source)
    requires Decodes(src)
    ensures SegmentsText(segments, src) != Err(Parse)
  {
    if segments != [] {
      TextDecodes(segments[1..], src);
    }
  }

  lemma {:induction false} MembersDecode(members: seq<Member>, src: Source)
    requires Decodes(src)
    ensures MemberEntries(members, src) != Err(Parse)
    decreases members
  {
    if members != [] {
      MemberDecodes(members[0], src);
      MembersDecode(members[1..], src);
    }
  }

  lemma {:induction false} MemberDecodes(m: Member, src: Source)
    requires Decodes(src)
    ensures MemberEntry(m, src) != Err(Parse)
    decreases m
  {
    if m.key.StringKey? {
      TextDecodes(m.key.template.segments, src);
    }
    if m.value.Some? {
      NeverParse(m.value.value, src);
    }
  }

  /** What a list like `[.a, 08]` comes to, and `[08, .a]`: the construct the fold cannot take and a number that does
      not decode, either way round. */
  lemma FirstObstacleWins(id: nat, spelling: string, src: Source)
    requires src.number(spelling) == None
    ensures Constant(Array(Some(Comma(Dynamic(id), Number(spelling)))), src) == Err(Unsupported)
    ensures Constant(Array(Some(Comma(Number(spelling), Dynamic(id)))), src) == Err(Parse)
    ensures ConstantSeq(Dynamic(id), src) == Fold([], Ok(false))
  {
    var a, b := Comma(Dynamic(id), Number(spelling)), Comma(Number(spelling), Dynamic(id));
    assert Obstacles(Dynamic(id), src) == [Unsupported] && Obstacles(Number(spelling), src) == [Parse];
    assert ListObstacles(a.left, src) == [Unsupported] && ListObstacles(a.right, src) == [Parse];
    assert ListObstacles(b.left, src) == [Parse] && ListObstacles(b.right, src) == [Unsupported];
    assert ListObstacles(a, src) == [Unsupported] + [Parse] && ListObstacles(b, src) == [Parse] + [Unsupported];
    ListFails(a, src);
    ListFails(b, src);
  }

  // ----- The imperative form -----

  /** A caller's vector of values. */
  class Values {
    var items: seq<Value>

    constructor ()
      ensures items == []
    {
      items := [];
    }

    method Push(v: Value)
      modifies this
      ensures items == old(items) + [v]
    {
      items := items + [v];
    }
  }

  method StaticTemplateText(template: Template, src: Source) returns (r: Result<Option<string>>)
    ensures r == SegmentsText(template.segments, src)
  {
    var key := "";
    ghost var goal := SegmentsText(template.segments, src);
    assert template.segments[0..] == template.segments;
    assert Prepended("", goal) == goal by { PrependNothing(goal); }
    for i := 0 to |template.segments|
      invariant goal == Prepended(key, SegmentsText(template.segments[i..], src))
    {
      ghost var rest := template.segments[i..];
      assert rest[1..] == template.segments[i + 1..];
      match template.segments[i]
      case Hole(_) => return Ok(None);
      case OtherSegment => return Err(Unsupported);
      case Literal(raw) =>
        match src.literal(raw) {
          case None => return Err(Parse);
          case Some(text) =>
            PrependTwice(key, text, SegmentsText(rest[1..], src));
            key := key + text;
        }
    }
    assert key + "" == key;
    return Ok(Some(key));
  }

  /** A text result with more text in front. */
  function Prepended(text: string, r: Result<Option<string>>): Result<Option<string>>
  {
    if r.Ok? && r.value.Some? then Ok(Some(text + r.value.value)) else r
  }

  lemma PrependNothing(r: Result<Option<string>>)
    ensures Prepended("", r) == r
  {
    if r.Ok? && r.value.Some? {
      assert "" + r.value.value == r.value.value;
    }
  }

  lemma PrependTwice(a: string, b: string, r: Result<Option<string>>)
    ensures Prepended(a, Prepended(b, r)) == Prepended(a + b, r)
  {
    if r.Ok? && r.value.Some? {
      assert a + (b + r.value.value) == (a + b) + r.value.value;
    }
  }

  method ConstantObjectKey(key: Key, src: Source) returns (r: Result<string>)
    ensures r == KeyText(key, src)
  {
    match key
    case NameKey(name) =>
      var text := src.name(name);
      r := if text.Some? then Ok(text.value) else Err(Parse);
    case StringKey(template) =>
      var text := StaticTemplateText(template, src);
      match text {
        case Ok(Some(t)) => r := Ok(t);
        case Ok(None) => r := Err(Unsupported);
        case Err(error) => r := Err(error);
      }
    case VariableKey(_) => r := Err(Unsupported);
    case ExprKey(_) => r := Err(Unsupported);
    case OtherKey => r := Err(Unsupported);
  }

  method EvaluateConstant(e: Expr, src: Source) returns (r: Result<Value>)
    ensures r == Constant(e, src)
    decreases e, 0
  {
    match e
    case Null => r := Ok(NullValue);
    case Bool(b) => r := Ok(BoolValue(b));
    case Number(spelling) => r := NumberOf(spelling, src);
    case Str(template) =>
      var text := StaticTemplateText(template, src);
      match text {
        case Ok(Some(t)) => r := Ok(StringValue(t));
        case Ok(None) => r := Err(Unsupported);
        case Err(error) => r := Err(error);
      }
    case Group(inner) => r := EvaluateConstant(inner, src);
    case Array(None) => r := Ok(ArrayValue([]));
    case Array(Some(generator)) =>
      var values := new Values();
      var folded := FoldConstantSeq(generator, src, values);
      assert values.items == ConstantSeq(generator, src).appended;
      match folded {
        case Ok(true) => r := Ok(ArrayValue(values.items));
        case Ok(false) => r := Err(Unsupported);
        case Err(error) => r := Err(error);
      }
    case Object(members) => r := EvaluateMembers(members, src);
    case Comma(_, _) => r := Err(Unsupported);
    case Dynamic(_) => r := Err(Unsupported);
  }

  function Prefixed(built: seq<Entry<Value>>, r: Result<seq<Entry<Value>>>): Result<seq<Entry<Value>>>
  {
    if r.Ok? then Ok(built + r.value) else r
  }

  lemma PrefixStep(built: seq<Entry<Value>>, entry: Entry<Value>, r: Result<seq<Entry<Value>>>)
    ensures Prefixed(built, Prefixed([entry], r)) == Prefixed(built + [entry], r)
    ensures Prefixed([], r) == r
  {
    if r.Ok? {
      assert built + ([entry] + r.value) == built + [entry] + r.value;
      assert [] + r.value == r.value;
    }
  }

  /** Key, then value; the first failure wins. */
  method EvaluateMember(m: Member, src: Source) returns (r: Result<Entry<Value>>)
    ensures r == MemberEntry(m, src)
    decreases m
  {
    var key := ConstantObjectKey(m.key, src);
    if key.Err? {
      return Err(key.error);
    }
    if m.value.None? {
      return Err(Unsupported);
    }
    var value := EvaluateConstant(m.value.value, src);
    if value.Err? {
      return Err(value.error);
    }
    return Ok(Entry(key.value, value.value));
  }

  /** The member loop: every entry goes to the builder, which collapses duplicates at the end. */
  method EvaluateMembers(members: seq<Member>, src: Source) returns (r: Result<Value>)
    ensures r == match MemberEntries(members, src)
                 case Ok(entries) => Ok(ObjectValue(Deduplicated(entries)))
                 case Err(error) => Err(error)
    decreases members
  {
    hide MemberEntry;
    var builder: seq<Entry<Value>> := [];
    ghost var goal := MemberEntries(members, src);
    assert members[0..] == members;
    assert Prefixed([], goal) == goal by {
      if goal.Ok? { assert [] + goal.value == goal.value; }
    }
    for i := 0 to |members|
      invariant goal == Prefixed(builder, MemberEntries(members[i..], src))
    {
      assert members[i..][0] == members[i] && members[i..][1..] == members[i + 1..];
      var entry := EvaluateMember(members[i], src);
      if entry.Err? {
        return Err(entry.error);
      }
      PrefixStep(builder, entry.value, MemberEntries(members[i + 1..], src));
      builder := builder + [entry.value];
    }
    assert members[|members|..] == [] && builder + [] == builder;
    var finished := FinishOccurrences(builder);
    return Ok(ObjectValue(finished));
  }

  method FoldConstantSeq(e: Expr, src: Source, out: Values) returns (r: Result<bool>)
    modifies out
    ensures r == ConstantSeq(e, src).outcome
    ensures out.items == old(out.items) + ConstantSeq(e, src).appended
    decreases e, 1
  {
    if e.Comma? {
      r := FoldConstantSeq(e.left, src, out);
      if r != Ok(true) {
        return;
      }
      r := FoldConstantSeq(e.right, src, out);
      return;
    }
    var value := EvaluateConstant(e, src);
    match value
    case Ok(v) =>
      out.Push(v);
      r := Ok(true);
    case Err(Unsupported) => r := Ok(false);
    case Err(Parse) => r := Err(Parse);
  }
}
