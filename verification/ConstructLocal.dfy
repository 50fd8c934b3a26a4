/** Grammars that never look past the structs around them parse the same wherever they stand. */
module ConstructLocal {
  import opened Common
  import opened Construct

  /** Every reference of the expression stays within the `d` innermost structs. */
  predicate Near(e: Expr, d: nat) {
    match e
    case Lit(_) => true
    case Ref(up, _) => up < d
    case Plus(a, b) => Near(a, d) && Near(b, d)
    case Times(a, b) => Near(a, d) && Near(b, d)
    case Third(a) => Near(a, d)
    case AtLeast(a, b) => Near(a, d) && Near(b, d)
    case Equal(a, b) => Near(a, d) && Near(b, d)
    case Differs(a, b) => Near(a, d) && Near(b, d)
    case Both(a, b) => Near(a, d) && Near(b, d)
    case OneOf(a, _) => Near(a, d)
  }

  /** So does every reference of the grammar, counted from outside it. */
  predicate Local(g: Con, d: nat)
    decreases g
  {
    match g
    case FixedBytes(length) => Near(length, d)
    case FallbackString(length) => Near(length, d)
    case Struct(fields) => LocalFields(fields, d + 1)
    case Array(count, item) => Near(count, d) && Local(item, d)
    case GreedyRange(item) => Local(item, d)
    case IfThenElse(cond, thn, els) => Near(cond, d) && Local(thn, d) && Local(els, d)
    case Switch(key, cases) => Near(key, d) && LocalCases(cases, d)
    case _ => true
  }

  predicate LocalFields(fields: FieldList, d: nat)
    decreases fields
  {
    fields.Field? ==> Local(fields.con, d) && LocalFields(fields.rest, d)
  }

  predicate LocalCases(cases: Cases, d: nat)
    decreases cases
  {
    Local(cases.con, d) && (cases.Case? ==> LocalCases(cases.rest, d))
  }

  lemma {:induction false} EvalIsLocal(e: Expr, inner: Context, a: Context, b: Context)
    requires Near(e, |inner|)
    ensures Eval(inner + a, e) == Eval(inner + b, e)
  {
    match e
    case Lit(_) =>
    case Ref(up, _) => assert (inner + a)[up] == (inner + b)[up];
    case Plus(x, y) => EvalIsLocal(x, inner, a, b); EvalIsLocal(y, inner, a, b);
    case Times(x, y) => EvalIsLocal(x, inner, a, b); EvalIsLocal(y, inner, a, b);
    case Third(x) => EvalIsLocal(x, inner, a, b);
    case AtLeast(x, y) => EvalIsLocal(x, inner, a, b); EvalIsLocal(y, inner, a, b);
    case Equal(x, y) => EvalIsLocal(x, inner, a, b); EvalIsLocal(y, inner, a, b);
    case Differs(x, y) => EvalIsLocal(x, inner, a, b); EvalIsLocal(y, inner, a, b);
    case Both(x, y) => EvalIsLocal(x, inner, a, b); EvalIsLocal(y, inner, a, b);
    case OneOf(x, _) => EvalIsLocal(x, inner, a, b);
  }

  /** What surrounds a local grammar does not matter to its parse. */
  lemma {:induction false} ParseIsLocal(cs: Codecs, g: Con, inner: Context, a: Context, b: Context, input: bytes)
    requires Local(g, |inner|)
    ensures Parse(cs, g, inner + a, input) == Parse(cs, g, inner + b, input)
    decreases g, 0, 0
  {
    match g
    case FixedBytes(length) => EvalIsLocal(length, inner, a, b);
    case FallbackString(length) => EvalIsLocal(length, inner, a, b);
    case Struct(fields) => FieldsAreLocal(cs, fields, inner, a, b, map[], input);
    case Array(count, item) =>
      EvalIsLocal(count, inner, a, b);
      if Eval(inner + a, count).Some? && Eval(inner + a, count).value >= 0 {
        ManyAreLocal(cs, item, inner, a, b, Eval(inner + a, count).value, input);
      }
    case GreedyRange(item) => GreedyIsLocal(cs, item, inner, a, b, input);
    case IfThenElse(cond, thn, els) =>
      EvalIsLocal(cond, inner, a, b);
      ParseIsLocal(cs, thn, inner, a, b, input);
      ParseIsLocal(cs, els, inner, a, b, input);
    case Switch(key, cases) =>
      EvalIsLocal(key, inner, a, b);
      if Eval(inner + a, key).Some? {
        CaseIsLocal(cs, cases, Eval(inner + a, key).value, inner, a, b, input);
      }
    case _ =>
  }

  lemma {:induction false} FieldsAreLocal(cs: Codecs, fields: FieldList, inner: Context, a: Context, b: Context,
                                          scope: Scope, input: bytes)
    requires LocalFields(fields, |inner| + 1)
    ensures ParseFields(cs, fields, inner + a, scope, input) == ParseFields(cs, fields, inner + b, scope, input)
    decreases fields, 0, 0
  {
    if fields.Field? && fields.name !in scope {
      ParseIsLocal(cs, fields.con, [scope] + inner, a, b, input);
      assert [scope] + inner + a == [scope] + (inner + a) && [scope] + inner + b == [scope] + (inner + b);
      var p := Parse(cs, fields.con, [scope] + (inner + a), input);
      if p.Some? {
        FieldsAreLocal(cs, fields.rest, inner, a, b, scope[fields.name := p.value.value], p.value.rest);
      }
    }
  }

  lemma {:induction false} CaseIsLocal(cs: Codecs, cases: Cases, key: int, inner: Context, a: Context, b: Context, input: bytes)
    requires LocalCases(cases, |inner|)
    ensures ParseCase(cs, cases, key, inner + a, input) == ParseCase(cs, cases, key, inner + b, input)
    decreases cases, 0, 0
  {
    ParseIsLocal(cs, cases.con, inner, a, b, input);
    if cases.Case? {
      CaseIsLocal(cs, cases.rest, key, inner, a, b, input);
    }
  }

  lemma {:induction false} ManyAreLocal(cs: Codecs, item: Con, inner: Context, a: Context, b: Context, n: nat, input: bytes)
    requires Local(item, |inner|)
    ensures ParseMany(cs, item, inner + a, n, input) == ParseMany(cs, item, inner + b, n, input)
    decreases item, 1, n
  {
    if n > 0 {
      ParseIsLocal(cs, item, inner, a, b, input);
      var p := Parse(cs, item, inner + a, input);
      if p.Some? {
        ManyAreLocal(cs, item, inner, a, b, n - 1, p.value.rest);
      }
    }
  }

  lemma {:induction false} GreedyIsLocal(cs: Codecs, item: Con, inner: Context, a: Context, b: Context, input: bytes)
    requires Local(item, |inner|)
    ensures ParseGreedy(cs, item, inner + a, input) == ParseGreedy(cs, item, inner + b, input)
    decreases item, 1, |input|
  {
    ParseIsLocal(cs, item, inner, a, b, input);
    var p := Parse(cs, item, inner + a, input);
    if p.Some? && |p.value.rest| < |input| {
      GreedyIsLocal(cs, item, inner, a, b, p.value.rest);
    }
  }
}
