/** Information elements: how an element's content follows from its id and length bytes. */
module WifiElements {
  import opened Common
  import opened Construct
  import opened ConstructNames
  import opened FieldNames
  import opened WifiGrammar
  import opened WifiLaws
  import opened WifiTails

  // ---- Conditions on the element's own record -------------------------------------------------

  lemma EvalThis(scope: Scope, ctx: Context, name: Name, n: int)
    requires name in scope && scope[name] == Num(n)
    ensures Eval([scope] + ctx, This(name)) == Some(n)
  {
    assert ([scope] + ctx)[0] == scope;
  }

  lemma EvalEqual(scope: Scope, ctx: Context, name: Name, n: int, k: int)
    requires Says(scope, name, n)
    ensures Eval([scope] + ctx, Equal(This(name), Lit(k))) == Some(Truth(n == k))
    ensures Eval([scope] + ctx, AtLeast(This(name), Lit(k))) == Some(Truth(n >= k))
  {
    EvalThis(scope, ctx, name, n);
    var e := This(name);
    assert Eval([scope] + ctx, Equal(e, Lit(k))) == Some(Truth(n == k));
    assert Eval([scope] + ctx, AtLeast(e, Lit(k))) == Some(Truth(n >= k));
  }

  /** The content of an element that is not empty and not an extension is its id's case. */
  lemma InfoCase(cs: Codecs, ctx: Context, scope: Scope, input: bytes, id: int, length: int, cases: Cases, extension: Con)
    requires Says(scope, Id, id) && Says(scope, Len, length) && length >= 1 && id != EXTENSION_ID
    ensures Parse(cs, If(AtLeast(This(Len), Lit(1)), IfThenElse(Equal(This(Id), Lit(EXTENSION_ID)), extension, Switch(This(Id), cases))),
                  [scope] + ctx, input)
         == ParseCase(cs, cases, id, [scope] + ctx, input)
  {
    var long, extended, body := AtLeast(This(Len), Lit(1)), Equal(This(Id), Lit(EXTENSION_ID)), Switch(This(Id), cases);
    EvalEqual(scope, ctx, Len, length, 1);
    EvalEqual(scope, ctx, Id, id, EXTENSION_ID);
    EvalThis(scope, ctx, Id, id);
    Chooses(cs, long, IfThenElse(extended, extension, body), Pass, [scope] + ctx, input, true);
    Chooses(cs, extended, extension, body, [scope] + ctx, input, false);
    Switches(cs, This(Id), cases, [scope] + ctx, input, id);
  }

  // ---- The element ------------------------------------------------------------------------------

  lemma ByteParses(cs: Codecs, ctx: Context, input: bytes)
    requires input != []
    ensures Parse(cs, BYTE, ctx, input) == Some(Parsed(Num(input[0]), input[1..], []))
  {
    assert input[..1] == [input[0]] && input[..1][1..] == [];
    assert LittleEndian(input[..1]) == input[0];
  }

  /** The record of an element before its content. */
  function ElementHead(id: int, length: int): Scope {
    map[Id := Num(id), Len := Num(length), IdExtension := Nothing]
  }

  lemma NoExtension(cs: Codecs, ctx: Context, scope: Scope, input: bytes, id: int)
    requires Says(scope, Id, id) && id != EXTENSION_ID
    ensures Parse(cs, If(Equal(This(Id), Lit(EXTENSION_ID)), BYTE), [scope] + ctx, input) == Some(Parsed(Nothing, input, []))
  {
    EvalEqual(scope, ctx, Id, id, EXTENSION_ID);
    Chooses(cs, Equal(This(Id), Lit(EXTENSION_ID)), BYTE, Pass, [scope] + ctx, input, false);
  }

  lemma EmptyInfo(cs: Codecs, ctx: Context, scope: Scope, input: bytes, content: Con)
    requires Says(scope, Len, 0)
    ensures Parse(cs, If(AtLeast(This(Len), Lit(1)), content), [scope] + ctx, input) == Some(Parsed(Nothing, input, []))
  {
    EvalEqual(scope, ctx, Len, 0, 1);
    Chooses(cs, AtLeast(This(Len), Lit(1)), content, Pass, [scope] + ctx, input, false);
  }

  /** What the content of an element with this id and length parses to. */
  function InfoOf(cs: Codecs, ctx: Context, id: int, length: int, input: bytes): Option<Parsed> {
    if length == 0 then Some(Parsed(Nothing, input, []))
    else Parse(cs, CaseOf(ELEMENT_CASES, id), [ElementHead(id, length)] + ctx, input)
  }

  lemma InfoFollows(cs: Codecs, ctx: Context, input: bytes, id: int, length: int)
    requires id != EXTENSION_ID && length >= 0
    ensures Parse(cs, ELEMENT_INFO, [ElementHead(id, length)] + ctx, input) == InfoOf(cs, ctx, id, length, input)
  {
    var scope := ElementHead(id, length);
    if length == 0 {
      EmptyInfo(cs, ctx, scope, input, ELEMENT_INFO.thn);
    } else {
      InfoCase(cs, ctx, scope, input, id, length, ELEMENT_CASES, FixedBytes(Plus(This(Len), Lit(-1))));
      ParseCaseIs(cs, ELEMENT_CASES, id, [scope] + ctx, input);
    }
  }

  lemma HeadSteps(id: int, length: int)
    ensures var scope: Scope := map[Id := Num(id)];
            && scope[Len := Num(length)][IdExtension := Nothing] == ElementHead(id, length)
            && Says(scope[Len := Num(length)], Id, id)
  {
  }

  lemma ElementNamesAre()
    ensures FieldNamesOf(INFORMATION_ELEMENT.fields) == [Id, Len, IdExtension, Info]
  {
    var f := INFORMATION_ELEMENT.fields;
    assert FieldNamesOf(f.rest.rest) == [IdExtension, Info];
    assert FieldNamesOf(f) == [Id, Len] + FieldNamesOf(f.rest.rest);
  }

  lemma ElementNames()
    ensures Unread(map[], INFORMATION_ELEMENT.fields)
  {
    ElementNamesAre();
    assert Distinct([Id, Len, IdExtension, Info]);
  }

  /** The head of an element that is no extension. */
  lemma HeadParses(cs: Codecs, ctx: Context, input: bytes)
    requires |input| >= 2 && input[0] != EXTENSION_ID
    ensures ParseFields(cs, INFORMATION_ELEMENT.fields, ctx, map[], input)
         == ParseFields(cs, INFORMATION_ELEMENT.fields.rest.rest.rest, ctx, ElementHead(input[0], input[1]), input[2..])
    ensures Info !in ElementHead(input[0], input[1])
  {
    var f := INFORMATION_ELEMENT.fields;
    ElementNames();
    ByteParses(cs, [map[]] + ctx, input);
    Onwards(cs, f, ctx, map[], input, Parsed(Num(input[0]), input[1..], []));
    var s1: Scope := map[Id := Num(input[0])];
    ByteParses(cs, [s1] + ctx, input[1..]);
    Onwards(cs, f.rest, ctx, s1, input[1..], Parsed(Num(input[1]), input[2..], []));
    var s2 := s1[Len := Num(input[1])];
    HeadSteps(input[0], input[1]);
    NoExtension(cs, ctx, s2, input[2..], input[0]);
    Onwards(cs, f.rest.rest, ctx, s2, input[2..], Parsed(Nothing, input[2..], []));
  }

  /** What an element with this head and content is. */
  function Headed(id: int, length: int, info: Option<Parsed>): Option<Parsed> {
    match info
    case None => None
    case Some(p) => Some(Parsed(Rec(ElementHead(id, length)[Info := p.value]), p.rest, p.texts))
  }

  /** An element that is no extension parses exactly when its content does. */
  lemma ElementFollows(cs: Codecs, ctx: Context, input: bytes)
    requires |input| >= 2 && input[0] != EXTENSION_ID
    ensures Parse(cs, INFORMATION_ELEMENT, ctx, input)
         == Headed(input[0], input[1], InfoOf(cs, ctx, input[0], input[1], input[2..]))
  {
    HeadParses(cs, ctx, input);
    InfoFollows(cs, ctx, input[2..], input[0], input[1]);
    LastField(cs, INFORMATION_ELEMENT.fields.rest.rest.rest, ctx, ElementHead(input[0], input[1]), input[2..]);
  }

  lemma ShortElement(cs: Codecs, ctx: Context, input: bytes)
    requires |input| < 2
    ensures Parse(cs, INFORMATION_ELEMENT, ctx, input) == None
  {
    var f := INFORMATION_ELEMENT.fields;
    ElementNames();
    if input == [] {
      StopsThere(cs, f, ctx, map[], input);
    } else {
      ByteParses(cs, [map[]] + ctx, input);
      Onwards(cs, f, ctx, map[], input, Parsed(Num(input[0]), input[1..], []));
      StopsThere(cs, f.rest, ctx, map[Id := Num(input[0])], input[1..]);
    }
  }

  lemma HeadedParts(id: int, length: int, info: Option<Parsed>) returns (p: Parsed)
    requires Headed(id, length, info).Some?
    ensures info == Some(p)
    ensures Headed(id, length, info) == Some(Parsed(Rec(ElementHead(id, length)[Info := p.value]), p.rest, p.texts))
  {
    p := info.value;
  }

  /** An element that is no extension is its two head bytes and its content. */
  lemma ElementIs(cs: Codecs, ctx: Context, input: bytes) returns (p: Parsed)
    requires |input| >= 2 && input[0] != EXTENSION_ID && Parse(cs, INFORMATION_ELEMENT, ctx, input).Some?
    ensures InfoOf(cs, ctx, input[0], input[1], input[2..]) == Some(p)
    ensures Parse(cs, INFORMATION_ELEMENT, ctx, input)
         == Some(Parsed(Rec(ElementHead(input[0], input[1])[Info := p.value]), p.rest, p.texts))
  {
    hide *;
    ElementFollows(cs, ctx, input);
    p := HeadedParts(input[0], input[1], InfoOf(cs, ctx, input[0], input[1], input[2..]));
  }
}
