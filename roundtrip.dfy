/** A reference printer for parsed values, and the round trip through the
    intended parser: printing a value without whitespace and parsing the
    text again gives the value back and stops right after its text. The
    printer writes strings as `printStringPtr` does and integers as
    `printInt` does; arrays and objects are written the standard JSON way,
    elements and members separated by commas. */
module RoundTrip {
  import opened Common
  import opened Cursor
  import opened StringCodec
  import opened NumberCodec
  import opened Parser

  /** A string whose every byte survives printing and parsing again. */
  predicate Survivable(s: bytes)
  {
    AllSurvive(s, Intended)
  }

  /** The values the printer writes and the intended parser reads back: no
      floating-point number anywhere (printing one is not modelled), and
      only survivable strings and names. */
  predicate Printable(v: Json)
    decreases v, 1
  {
    match v
    case JFloat => false
    case JString(s) => Survivable(s)
    case JArray(items) => AllPrintable(items)
    case JObject(ms) => MembersPrintable(ms)
    case _ => true
  }

  /** Every element is printable. */
  predicate AllPrintable(items: seq<Json>)
    decreases items, 0
  {
    forall i | 0 <= i < |items| :: Printable(items[i])
  }

  /** Every member has a survivable name and a printable value. */
  predicate MembersPrintable(ms: seq<Member>)
    decreases ms, 0
  {
    forall i | 0 <= i < |ms| :: Survivable(ms[i].name) && Printable(ms[i].value)
  }

  /** A string as `printStringPtr` writes it. */
  function Quoted(s: bytes): bytes
  {
    [QUOTE] + Escape(s) + [QUOTE]
  }

  /** The quoted text regrouped as the string parser reads it. */
  lemma {:induction false} QuotedAt(inp: bytes, p: nat, s: bytes)
    requires At(inp, p, Quoted(s))
    ensures At(inp, p, [QUOTE] + (Escape(s) + [QUOTE]))
  {
    AppendAssoc([QUOTE], Escape(s), [QUOTE]);
  }

  /** The text of a value. Float printing is not part of this model: a
      Float is written as a placeholder `0`, and no printable value holds
      one. */
  function Serialize(v: Json): (text: bytes)
    ensures |text| >= 1
    decreases v, 0
  {
    match v
    case JNull => NULL_TEXT
    case JFalse => FALSE_TEXT
    case JTrue => TRUE_TEXT
    case JInt(n) => IntToDecimal(n)
    case JFloat => [ZERO]
    case JString(s) => Quoted(s)
    case JArray(items) => [LBRACKET] + Elements(items, 0)
    case JObject(ms) => [LBRACE] + Members(ms, 0)
  }

  /** An array from its element `k` on: the elements separated by commas,
      then `]`. */
  function Elements(items: seq<Json>, k: nat): bytes
    requires k <= |items|
    decreases items, |items| - k, 1
  {
    if k == |items| then [RBRACKET] else Serialize(items[k]) + MoreElements(items, k + 1)
  }

  /** An array after its element `k - 1`: a comma and element `k`, and so
      on, then `]`. */
  function MoreElements(items: seq<Json>, k: nat): bytes
    requires k <= |items|
    decreases items, |items| - k, 2
  {
    if k == |items| then [RBRACKET] else [COMMA] + Elements(items, k)
  }

  /** One object member: its quoted name, a colon and its value. */
  function Field(m: Member): bytes
    decreases m, 1
  {
    Quoted(m.name) + ([COLON] + Serialize(m.value))
  }

  /** An object from its member `k` on: the members separated by commas,
      then `}`. */
  function Members(ms: seq<Member>, k: nat): bytes
    requires k <= |ms|
    decreases ms, |ms| - k, 1
  {
    if k == |ms| then [RBRACE] else Field(ms[k]) + MoreMembers(ms, k + 1)
  }

  /** An object after its member `k - 1`: a comma and member `k`, and so
      on, then `}`. */
  function MoreMembers(ms: seq<Member>, k: nat): bytes
    requires k <= |ms|
    decreases ms, |ms| - k, 2
  {
    if k == |ms| then [RBRACE] else [COMMA] + Members(ms, k)
  }

  /** The byte at `e`, if any, cannot continue a number: the cursor after a
      printed value stands on a separator, a closing bracket or the end. */
  predicate Delimited(inp: bytes, e: nat)
  {
    e < |inp| ==> !IsDigit(inp[e]) && !IsFloatMark(inp[e])
  }

  // ---------------------------------------------------------------------
  // Facts about the printed text

  /** The first byte of a printed value is significant and is not a
      closing bracket. */
  lemma {:induction false} FirstByte(v: Json)
    requires Printable(v)
    ensures |Serialize(v)| > 0 && Serialize(v)[0] > SPACE && Serialize(v)[0] != RBRACKET
  {
    if v.JInt? {
      IntFirst(v.i);
    }
  }

  /** Printed integer text starts with a minus sign or a digit. */
  lemma {:induction false} IntFirst(n: int)
    ensures |IntToDecimal(n)| > 0
    ensures IntToDecimal(n)[0] == MINUS || IsDigit(IntToDecimal(n)[0])
  {
    if n >= 0 {
      assert IsDigit(Digits(n)[0]);
    }
  }

  /** One byte followed by a text. */
  lemma {:induction false} Opened(inp: bytes, q: nat, c: byte, t: bytes)
    requires At(inp, q, [c] + t)
    ensures q < |inp| && inp[q] == c && At(inp, q + 1, t)
  {
    AtSplit(inp, q, [c], t);
    AtIndex(inp, q, [c], 0);
  }

  /** A printed value standing at `p` starts with a significant byte that
      is not `]`. */
  lemma {:induction false} HeadAt(inp: bytes, p: nat, v: Json)
    requires Printable(v) && At(inp, p, Serialize(v))
    ensures p < |inp| && inp[p] > SPACE && inp[p] != RBRACKET
  {
    FirstByte(v);
    AtIndex(inp, p, Serialize(v), 0);
  }

  /** What follows an element is a comma or the closing `]`. */
  lemma {:induction false} MoreElementsAt(inp: bytes, e: nat, items: seq<Json>, k: nat)
    requires k <= |items| && At(inp, e, MoreElements(items, k))
    ensures e < |inp| && inp[e] == if k == |items| then RBRACKET else COMMA
  {
    AtIndex(inp, e, MoreElements(items, k), 0);
  }

  /** What follows a member is a comma or the closing `}`. */
  lemma {:induction false} MoreMembersAt(inp: bytes, e: nat, ms: seq<Member>, k: nat)
    requires k <= |ms| && At(inp, e, MoreMembers(ms, k))
    ensures e < |inp| && inp[e] == if k == |ms| then RBRACE else COMMA
  {
    AtIndex(inp, e, MoreMembers(ms, k), 0);
  }

  /** The members from `k` on start with the quote of a name, or are `}`. */
  lemma {:induction false} MembersAt(inp: bytes, q: nat, ms: seq<Member>, k: nat)
    requires k <= |ms| && At(inp, q, Members(ms, k))
    ensures q < |inp| && inp[q] == if k == |ms| then RBRACE else QUOTE
  {
    if k == |ms| {
      AtIndex(inp, q, Members(ms, k), 0);
    } else {
      AtSplit(inp, q, Field(ms[k]), MoreMembers(ms, k + 1));
      AtSplit(inp, q, Quoted(ms[k].name), [COLON] + Serialize(ms[k].value));
      AtIndex(inp, q, Quoted(ms[k].name), 0);
    }
  }

  /** The elements from `k` on are element `k`, then what follows. */
  lemma {:induction false} ElementsSplit(inp: bytes, p: nat, items: seq<Json>, k: nat)
    requires k < |items| && At(inp, p, Elements(items, k))
    ensures At(inp, p, Serialize(items[k]))
    ensures At(inp, p + |Serialize(items[k])|, MoreElements(items, k + 1))
    ensures |Elements(items, k)| == |Serialize(items[k])| + |MoreElements(items, k + 1)|
  {
    AtSplit(inp, p, Serialize(items[k]), MoreElements(items, k + 1));
  }

  /** The members from `k` on are member `k`, then what follows. */
  lemma {:induction false} MembersSplit(inp: bytes, q: nat, ms: seq<Member>, k: nat)
    requires k < |ms| && At(inp, q, Members(ms, k))
    ensures At(inp, q, Field(ms[k]))
    ensures At(inp, q + |Field(ms[k])|, MoreMembers(ms, k + 1))
    ensures |Members(ms, k)| == |Field(ms[k])| + |MoreMembers(ms, k + 1)|
  {
    AtSplit(inp, q, Field(ms[k]), MoreMembers(ms, k + 1));
  }

  /** A member is its quoted name, a colon and its value. */
  lemma {:induction false} FieldSplit(inp: bytes, q: nat, m: Member) returns (c: nat)
    requires At(inp, q, Field(m))
    ensures c == q + |Quoted(m.name)|
    ensures At(inp, q, Quoted(m.name))
    ensures At(inp, c, [COLON] + Serialize(m.value))
    ensures |Field(m)| == |Quoted(m.name)| + 1 + |Serialize(m.value)|
  {
    c := q + |Quoted(m.name)|;
    AtSplit(inp, q, Quoted(m.name), [COLON] + Serialize(m.value));
  }

  // ---------------------------------------------------------------------
  // One step of each parser

  /** `parseValue` on a significant byte that opens a number. */
  lemma {:induction false} DispatchNumber(inp: bytes, p: nat, d: Dialect)
    requires p < |inp| && (inp[p] == MINUS || IsDigit(inp[p]))
    ensures ParseValueF(inp, p, d) == ParseNumberF(inp, p, d)
  {
    SkipToSignificant(inp, p);
  }

  /** `parseValue` on a quote reads a string. */
  lemma {:induction false} DispatchString(inp: bytes, p: nat, d: Dialect, s: bytes, e: nat)
    requires p < |inp| && inp[p] == QUOTE
    requires ParseStringF(inp, p, d) == Success((s, e))
    ensures ParseValueF(inp, p, d) == Success((JString(s), e))
  {
    SkipToSignificant(inp, p);
  }

  /** `parseValue` on `[` reads an array. */
  lemma {:induction false} DispatchArray(inp: bytes, p: nat, d: Dialect)
    requires p < |inp| && inp[p] == LBRACKET
    ensures ParseValueF(inp, p, d) == ParseArrayF(inp, p, d)
  {
    SkipToSignificant(inp, p);
  }

  /** `parseValue` on `{` reads an object. */
  lemma {:induction false} DispatchObject(inp: bytes, p: nat, d: Dialect)
    requires p < |inp| && inp[p] == LBRACE
    ensures ParseValueF(inp, p, d) == ParseObjectF(inp, p, d)
  {
    SkipToSignificant(inp, p);
  }

  /** `parseValue` on `n`, `f` or `t` matches the literal that is there. */
  lemma {:induction false} DispatchLiteral(inp: bytes, p: nat, d: Dialect, v: Json)
    requires v.JNull? || v.JFalse? || v.JTrue?
    requires At(inp, p, Serialize(v))
    ensures ParseValueF(inp, p, d) == Success((v, p + |Serialize(v)|))
  {
    AtIndex(inp, p, Serialize(v), 0);
    SkipToSignificant(inp, p);
  }

  /** `parseArray` reads its first element and goes on with the loop. */
  lemma {:induction false} ArrayStep(inp: bytes, p: nat, b: nat, d: Dialect, v: Json, e: nat)
    requires b == p + 1 && b < |inp| && inp[p] == LBRACKET && inp[b] > SPACE && inp[b] != RBRACKET
    requires ParseValueF(inp, b, d) == Success((v, e))
    requires e < |inp| && inp[e] > SPACE
    ensures ParseArrayF(inp, p, d) == ArrayTail(inp, e, [v], d)
  {
    SkipToSignificant(inp, b);
    SkipToSignificant(inp, e);
  }

  /** `parseArray` as intended reads `[]` as the empty array. */
  lemma {:induction false} ArrayEmpty(inp: bytes, p: nat, e: nat)
    requires p + 1 < |inp| && inp[p] == LBRACKET && inp[p + 1] == RBRACKET && e == p + 2
    ensures ParseArrayF(inp, p, Intended) == Success((JArray([]), e))
  {
    SkipToSignificant(inp, p + 1);
  }

  /** `parseObject` as intended reads `{}` as the empty object. */
  lemma {:induction false} ObjectEmpty(inp: bytes, p: nat, e: nat)
    requires p + 1 < |inp| && inp[p] == LBRACE && inp[p + 1] == RBRACE && e == p + 2
    ensures ParseObjectF(inp, p, Intended) == Success((JObject([]), e))
  {
    SkipToSignificant(inp, p + 1);
  }

  /** The element loop reads a comma and an element and goes on. */
  lemma {:induction false} ElementStep(inp: bytes, q: nat, b: nat, acc: seq<Json>, d: Dialect, v: Json, e: nat)
    requires b == q + 1 && b < |inp| && inp[q] == COMMA && inp[b] > SPACE
    requires ParseValueF(inp, b, d) == Success((v, e))
    requires e < |inp| && inp[e] > SPACE
    ensures ArrayTail(inp, q, acc, d) == ArrayTail(inp, e, acc + [v], d)
  {
    SkipToSignificant(inp, b);
    SkipToSignificant(inp, e);
  }

  /** The element loop as intended ends at `]`. */
  lemma {:induction false} ElementsEnd(inp: bytes, q: nat, acc: seq<Json>)
    requires q < |inp| && inp[q] == RBRACKET
    ensures ArrayTail(inp, q, acc, Intended) == Success((JArray(acc), q + 1))
  {
  }

  /** `parseObject` as intended goes on with the member loop when the
      object is not empty. */
  lemma {:induction false} ObjectStep(inp: bytes, p: nat, q: nat)
    requires q == p + 1 && q < |inp| && inp[p] == LBRACE && inp[q] > SPACE && inp[q] != RBRACE
    ensures ParseObjectF(inp, p, Intended) == ObjectMembers(inp, q, [])
  {
    SkipToSignificant(inp, q);
  }

  /** A member as intended: the name, a colon, the value. */
  lemma {:induction false} MemberRead(inp: bytes, q: nat, m: Member, c: nat, b: nat, e: nat)
    requires q <= |inp| && ParseStringF(inp, q, Intended) == Success((m.name, c))
    requires b == c + 1 && b < |inp| && inp[c] == COLON && inp[b] > SPACE
    requires ParseValueF(inp, b, Intended) == Success((m.value, e))
    ensures MemberF(inp, q, Intended) == Success((m, e))
  {
    SkipToSignificant(inp, c);
    SkipToSignificant(inp, b);
  }

  /** The member loop reads a member, then a comma and goes on. */
  lemma {:induction false} MemberStep(inp: bytes, q: nat, acc: seq<Member>, m: Member, e: nat, q': nat)
    requires q <= |inp| && MemberF(inp, q, Intended) == Success((m, e))
    requires q' == e + 1 && q' < |inp| && inp[e] == COMMA && inp[q'] > SPACE
    ensures ObjectMembers(inp, q, acc) == ObjectMembers(inp, q', acc + [m])
  {
    SkipToSignificant(inp, e);
    SkipToSignificant(inp, q');
  }

  /** The member loop reads its first member, then a comma and goes on. */
  lemma {:induction false} FirstMemberRead(inp: bytes, q: nat, m: Member, e: nat, q': nat)
    requires q <= |inp| && MemberF(inp, q, Intended) == Success((m, e))
    requires q' == e + 1 && q' < |inp| && inp[e] == COMMA && inp[q'] > SPACE
    ensures ObjectMembers(inp, q, []) == ObjectMembers(inp, q', [m])
  {
    SkipToSignificant(inp, e);
    SkipToSignificant(inp, q');
    assert [] + [m] == [m];
  }

  /** The member loop reads its only member and then the closing `}`. */
  lemma {:induction false} OnlyMemberEnd(inp: bytes, q: nat, m: Member, e: nat, end: nat)
    requires q <= |inp| && MemberF(inp, q, Intended) == Success((m, e))
    requires e < |inp| && inp[e] == RBRACE && end == e + 1
    ensures ObjectMembers(inp, q, []) == Success((JObject([m]), end))
  {
    SkipToSignificant(inp, e);
    assert [] + [m] == [m];
  }

  /** The member loop reads a member and then the closing `}`. */
  lemma {:induction false} MembersEnd(inp: bytes, q: nat, acc: seq<Member>, m: Member, e: nat, end: nat)
    requires q <= |inp| && MemberF(inp, q, Intended) == Success((m, e))
    requires e < |inp| && inp[e] == RBRACE && end == e + 1
    ensures ObjectMembers(inp, q, acc) == Success((JObject(acc + [m]), end))
  {
    SkipToSignificant(inp, e);
  }

  // ---------------------------------------------------------------------
  // The round trip

  /** Parsing a printed value gives it back and stops at `e`, right after
      its text. */
  lemma {:induction false} ValueRoundTrip(inp: bytes, p: nat, v: Json, e: nat)
    requires Printable(v) && At(inp, p, Serialize(v))
    requires e == p + |Serialize(v)| && Delimited(inp, e)
    ensures ParseValueF(inp, p, Intended) == Success((v, e))
    decreases v, 0
  {
    match v
    case JNull =>
      DispatchLiteral(inp, p, Intended, v);
    case JFalse =>
      DispatchLiteral(inp, p, Intended, v);
    case JTrue =>
      DispatchLiteral(inp, p, Intended, v);
    case JInt(n) =>
      IntValueRoundTrip(inp, p, n, e);
    case JString(s) =>
      StringValueRoundTrip(inp, p, s, e);
    case JArray(items) =>
      ArrayValueRoundTrip(inp, p, items, e);
    case JObject(ms) =>
      ObjectValueRoundTrip(inp, p, ms, e);
  }

  /** An integer value. */
  lemma {:induction false} IntValueRoundTrip(inp: bytes, p: nat, n: int, e: nat)
    requires At(inp, p, IntToDecimal(n)) && e == p + |IntToDecimal(n)| && Delimited(inp, e)
    ensures ParseValueF(inp, p, Intended) == Success((JInt(n), e))
  {
    IntFirst(n);
    AtIndex(inp, p, IntToDecimal(n), 0);
    NumberRoundTrip(inp, p, n, Intended);
    DispatchNumber(inp, p, Intended);
  }

  /** A string value. */
  lemma {:induction false} StringValueRoundTrip(inp: bytes, p: nat, s: bytes, e: nat)
    requires Survivable(s) && At(inp, p, Quoted(s)) && e == p + |Quoted(s)|
    ensures ParseValueF(inp, p, Intended) == Success((JString(s), e))
  {
    QuotedAt(inp, p, s);
    StringRoundTrip(inp, p, s, Intended, e);
    DispatchString(inp, p, Intended, s, e);
  }

  /** An array value. */
  lemma {:induction false} ArrayValueRoundTrip(inp: bytes, p: nat, items: seq<Json>, e: nat)
    requires AllPrintable(items) && At(inp, p, [LBRACKET] + Elements(items, 0))
    requires e == p + 1 + |Elements(items, 0)|
    ensures ParseValueF(inp, p, Intended) == Success((JArray(items), e))
    decreases items, |items| + 3, 0
  {
    Opened(inp, p, LBRACKET, Elements(items, 0));
    ArrayRoundTrip(inp, p, items, e);
    DispatchArray(inp, p, Intended);
  }

  /** An object value. */
  lemma {:induction false} ObjectValueRoundTrip(inp: bytes, p: nat, ms: seq<Member>, e: nat)
    requires MembersPrintable(ms) && At(inp, p, [LBRACE] + Members(ms, 0))
    requires e == p + 1 + |Members(ms, 0)|
    ensures ParseValueF(inp, p, Intended) == Success((JObject(ms), e))
    decreases ms, |ms| + 3, 0
  {
    Opened(inp, p, LBRACE, Members(ms, 0));
    ObjectRoundTrip(inp, p, ms, e);
    DispatchObject(inp, p, Intended);
  }

  /** An array: `[`, then `]` at once or the elements. */
  lemma {:induction false} ArrayRoundTrip(inp: bytes, p: nat, items: seq<Json>, e: nat)
    requires AllPrintable(items)
    requires At(inp, p, [LBRACKET] + Elements(items, 0)) && e == p + 1 + |Elements(items, 0)|
    ensures ParseArrayF(inp, p, Intended) == Success((JArray(items), e))
    decreases items, |items| + 2, 0
  {
    Opened(inp, p, LBRACKET, Elements(items, 0));
    if items == [] {
      AtIndex(inp, p + 1, Elements(items, 0), 0);
      ArrayEmpty(inp, p, e);
    } else {
      var q' := FirstElementStep(inp, p, items);
      MoreRoundTrip(inp, q', items, 1, e);
    }
  }

  /** `parseArray` reads the first element and goes on with the element
      loop. */
  lemma {:induction false} FirstElementStep(inp: bytes, p: nat, items: seq<Json>) returns (q': nat)
    requires items != [] && AllPrintable(items)
    requires At(inp, p + 1, Elements(items, 0)) && p < |inp| && inp[p] == LBRACKET
    ensures q' == p + 1 + |Serialize(items[0])| && q' <= |inp|
    ensures ParseArrayF(inp, p, Intended) == ArrayTail(inp, q', items[..1], Intended)
    ensures At(inp, q', MoreElements(items, 1))
    ensures q' + |MoreElements(items, 1)| == p + 1 + |Elements(items, 0)|
    decreases items, |items| + 1, 0
  {
    var b := p + 1;
    q' := b + |Serialize(items[0])|;
    ElementsSplit(inp, b, items, 0);
    HeadAt(inp, b, items[0]);
    MoreElementsAt(inp, q', items, 1);
    ValueRoundTrip(inp, b, items[0], q');
    ArrayStep(inp, p, b, Intended, items[0], q');
    assert [items[0]] == items[..1];
  }

  /** The element loop, having read the elements before `k`, reads the
      rest, each after its comma, and then the closing `]`. */
  lemma {:induction false} MoreRoundTrip(inp: bytes, q: nat, items: seq<Json>, k: nat, end: nat)
    requires 1 <= k <= |items| && AllPrintable(items)
    requires At(inp, q, MoreElements(items, k))
    requires end == q + |MoreElements(items, k)|
    ensures ArrayTail(inp, q, items[..k], Intended) == Success((JArray(items), end))
    decreases items, |items| - k, 2
  {
    if k == |items| {
      LastElementRoundTrip(inp, q, items, k, end);
    } else {
      NextElementRoundTrip(inp, q, items, k, end);
    }
  }

  /** The element loop reads the closing `]`. */
  lemma {:induction false} LastElementRoundTrip(inp: bytes, q: nat, items: seq<Json>, k: nat, end: nat)
    requires 1 <= k == |items| && At(inp, q, MoreElements(items, k))
    requires end == q + |MoreElements(items, k)|
    ensures ArrayTail(inp, q, items[..k], Intended) == Success((JArray(items), end))
  {
    MoreElementsAt(inp, q, items, k);
    ElementsEnd(inp, q, items[..k]);
    assert items[..k] == items;
  }

  /** A comma, element `k` and the elements that follow. */
  lemma {:induction false} NextElementRoundTrip(inp: bytes, q: nat, items: seq<Json>, k: nat, end: nat)
    requires 1 <= k < |items| && AllPrintable(items)
    requires At(inp, q, MoreElements(items, k))
    requires end == q + |MoreElements(items, k)|
    ensures ArrayTail(inp, q, items[..k], Intended) == Success((JArray(items), end))
    decreases items, |items| - k, 1
  {
    var q' := NextElementStep(inp, q, items, k);
    MoreRoundTrip(inp, q', items, k + 1, end);
  }

  /** The element loop reads a comma and element `k` and goes on with what
      follows. */
  lemma {:induction false} NextElementStep(inp: bytes, q: nat, items: seq<Json>, k: nat) returns (q': nat)
    requires 1 <= k < |items| && AllPrintable(items)
    requires At(inp, q, MoreElements(items, k))
    ensures q' == q + 1 + |Serialize(items[k])| && q' <= |inp|
    ensures ArrayTail(inp, q, items[..k], Intended) == ArrayTail(inp, q', items[..k + 1], Intended)
    ensures At(inp, q', MoreElements(items, k + 1))
    ensures q' + |MoreElements(items, k + 1)| == q + |MoreElements(items, k)|
    decreases items, |items| - k, 0
  {
    var b := q + 1;
    q' := b + |Serialize(items[k])|;
    MoreElementsAt(inp, q, items, k);
    Opened(inp, q, COMMA, Elements(items, k));
    ElementsSplit(inp, b, items, k);
    HeadAt(inp, b, items[k]);
    MoreElementsAt(inp, q', items, k + 1);
    ValueRoundTrip(inp, b, items[k], q');
    ElementStep(inp, q, b, items[..k], Intended, items[k], q');
    TakeNext(items, k);
  }

  /** An object: `{`, then `}` at once or the members. */
  lemma {:induction false} ObjectRoundTrip(inp: bytes, p: nat, ms: seq<Member>, e: nat)
    requires MembersPrintable(ms)
    requires At(inp, p, [LBRACE] + Members(ms, 0)) && e == p + 1 + |Members(ms, 0)|
    ensures ParseObjectF(inp, p, Intended) == Success((JObject(ms), e))
    decreases ms, |ms| + 2, 0
  {
    var q := p + 1;
    Opened(inp, p, LBRACE, Members(ms, 0));
    MembersAt(inp, q, ms, 0);
    if ms == [] {
      ObjectEmpty(inp, p, e);
    } else {
      ObjectStep(inp, p, q);
      FirstMemberRoundTrip(inp, q, ms, e);
    }
  }

  /** The member loop, starting with no members read, reads the members,
      separated by commas, and then the closing `}`. */
  lemma {:induction false} FirstMemberRoundTrip(inp: bytes, q: nat, ms: seq<Member>, end: nat)
    requires ms != [] && MembersPrintable(ms)
    requires At(inp, q, Members(ms, 0))
    requires end == q + |Members(ms, 0)|
    ensures ObjectMembers(inp, q, []) == Success((JObject(ms), end))
    decreases ms, |ms| + 1, 2
  {
    if |ms| == 1 {
      OnlyMemberRoundTrip(inp, q, ms, end);
    } else {
      var q' := FirstMemberStep(inp, q, ms);
      MembersRoundTrip(inp, q', ms, 1, end);
    }
  }

  /** An object of one member: the member, then `}`. */
  lemma {:induction false} OnlyMemberRoundTrip(inp: bytes, q: nat, ms: seq<Member>, end: nat)
    requires |ms| == 1 && MembersPrintable(ms)
    requires At(inp, q, Members(ms, 0))
    requires end == q + |Members(ms, 0)|
    ensures ObjectMembers(inp, q, []) == Success((JObject(ms), end))
    decreases ms, |ms| + 1, 1
  {
    var e := MembersHead(inp, q, ms, 0);
    MoreMembersAt(inp, e, ms, 1);
    OnlyMemberEnd(inp, q, ms[0], e, end);
    assert [ms[0]] == ms;
  }

  /** The member loop reads the first member and a comma and goes on with
      the members that follow. */
  lemma {:induction false} FirstMemberStep(inp: bytes, q: nat, ms: seq<Member>) returns (q': nat)
    requires 1 < |ms| && MembersPrintable(ms)
    requires At(inp, q, Members(ms, 0))
    ensures q' == q + |Field(ms[0])| + 1 && q' <= |inp|
    ensures ObjectMembers(inp, q, []) == ObjectMembers(inp, q', ms[..1])
    ensures At(inp, q', Members(ms, 1))
    ensures q' + |Members(ms, 1)| == q + |Members(ms, 0)|
    decreases ms, |ms| + 1, 1
  {
    var e := MembersHead(inp, q, ms, 0);
    q' := e + 1;
    CommaThenMember(inp, e, q', ms, 1);
    FirstMemberRead(inp, q, ms[0], e, q');
    assert [ms[0]] == ms[..1];
  }

  /** The member loop, having read the members before `k`, reads the rest,
      separated by commas, and then the closing `}`. */
  lemma {:induction false} MembersRoundTrip(inp: bytes, q: nat, ms: seq<Member>, k: nat, end: nat)
    requires 1 <= k < |ms| && MembersPrintable(ms)
    requires At(inp, q, Members(ms, k))
    requires end == q + |Members(ms, k)|
    ensures ObjectMembers(inp, q, ms[..k]) == Success((JObject(ms), end))
    decreases ms, |ms| - k, 4
  {
    if k + 1 == |ms| {
      LastMemberRoundTrip(inp, q, ms, k, end);
    } else {
      NextMemberRoundTrip(inp, q, ms, k, end);
    }
  }

  /** The last member, then `}`. */
  lemma {:induction false} LastMemberRoundTrip(inp: bytes, q: nat, ms: seq<Member>, k: nat, end: nat)
    requires 1 <= k && k + 1 == |ms| && MembersPrintable(ms)
    requires At(inp, q, Members(ms, k))
    requires end == q + |Members(ms, k)|
    ensures ObjectMembers(inp, q, ms[..k]) == Success((JObject(ms), end))
    decreases ms, |ms| - k, 3
  {
    var e := MembersHead(inp, q, ms, k);
    MoreMembersAt(inp, e, ms, k + 1);
    MembersEnd(inp, q, ms[..k], ms[k], e, end);
    TakeNext(ms, k);
    assert ms[..k + 1] == ms;
  }

  /** Member `k`, then a comma and the members that follow. */
  lemma {:induction false} NextMemberRoundTrip(inp: bytes, q: nat, ms: seq<Member>, k: nat, end: nat)
    requires 1 <= k && k + 1 < |ms| && MembersPrintable(ms)
    requires At(inp, q, Members(ms, k))
    requires end == q + |Members(ms, k)|
    ensures ObjectMembers(inp, q, ms[..k]) == Success((JObject(ms), end))
    decreases ms, |ms| - k, 3
  {
    var q' := NextMemberStep(inp, q, ms, k);
    MembersRoundTrip(inp, q', ms, k + 1, end);
  }

  /** The member loop reads member `k` and a comma and goes on with the
      members that follow. */
  lemma {:induction false} NextMemberStep(inp: bytes, q: nat, ms: seq<Member>, k: nat) returns (q': nat)
    requires 1 <= k && k + 1 < |ms| && MembersPrintable(ms)
    requires At(inp, q, Members(ms, k))
    ensures q' == q + |Field(ms[k])| + 1 && q' <= |inp|
    ensures ObjectMembers(inp, q, ms[..k]) == ObjectMembers(inp, q', ms[..k + 1])
    ensures At(inp, q', Members(ms, k + 1))
    ensures q' + |Members(ms, k + 1)| == q + |Members(ms, k)|
    decreases ms, |ms| - k, 2
  {
    var e := MembersHead(inp, q, ms, k);
    q' := e + 1;
    CommaThenMember(inp, e, q', ms, k + 1);
    MemberStep(inp, q, ms[..k], ms[k], e, q');
    TakeNext(ms, k);
  }

  /** After member `k - 1`, when member `k` exists: a comma, then the quote
      of the name of member `k`. */
  lemma {:induction false} CommaThenMember(inp: bytes, e: nat, q: nat, ms: seq<Member>, k: nat)
    requires k < |ms| && At(inp, e, MoreMembers(ms, k)) && q == e + 1
    ensures q < |inp| && inp[e] == COMMA && inp[q] == QUOTE
    ensures At(inp, q, Members(ms, k))
    ensures |MoreMembers(ms, k)| == 1 + |Members(ms, k)|
  {
    Opened(inp, e, COMMA, Members(ms, k));
    MembersAt(inp, q, ms, k);
  }

  /** The member loop reads member `k` of a printed list. */
  lemma {:induction false} MembersHead(inp: bytes, q: nat, ms: seq<Member>, k: nat) returns (e: nat)
    requires k < |ms| && MembersPrintable(ms)
    requires At(inp, q, Members(ms, k))
    ensures e == q + |Field(ms[k])|
    ensures MemberF(inp, q, Intended) == Success((ms[k], e))
    ensures At(inp, e, MoreMembers(ms, k + 1))
    ensures |Members(ms, k)| == |Field(ms[k])| + |MoreMembers(ms, k + 1)|
    decreases ms, |ms| - k, 0
  {
    e := q + |Field(ms[k])|;
    MembersSplit(inp, q, ms, k);
    MoreMembersAt(inp, e, ms, k + 1);
    FieldRoundTrip(inp, q, ms[k], e);
  }

  /** One member: the name, the colon, the value. */
  lemma {:induction false} FieldRoundTrip(inp: bytes, q: nat, m: Member, e: nat)
    requires Survivable(m.name) && Printable(m.value)
    requires At(inp, q, Field(m)) && e == q + |Field(m)| && Delimited(inp, e)
    ensures MemberF(inp, q, Intended) == Success((m, e))
    decreases m, 0
  {
    var c := FieldSplit(inp, q, m);
    var b := c + 1;
    Opened(inp, c, COLON, Serialize(m.value));
    HeadAt(inp, b, m.value);
    QuotedAt(inp, q, m.name);
    StringRoundTrip(inp, q, m.name, Intended, c);
    ValueRoundTrip(inp, b, m.value, e);
    MemberRead(inp, q, m, c, b, e);
  }

  /** `parse` as intended reads back every printable value. */
  lemma {:induction false} PrintThenParse(v: Json)
    requires Printable(v)
    ensures Parse(Serialize(v)) == Some(v)
  {
    var text := Serialize(v);
    assert text[0..|text|] == text;
    HeadAt(text, 0, v);
    SkipToSignificant(text, 0);
    ValueRoundTrip(text, 0, v, |text|);
  }
}
