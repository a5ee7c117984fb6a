/** The recursive-descent parser: `parseValue` dispatches on the first
    significant byte to the string, number, array and object parsers or to
    the three literals; arrays and objects call back into `parseValue` for
    their elements. Each parser reads the stream from its position and, on
    success, produces a value and the position it leaves the stream at.

    Every specification function takes a `Dialect`: `AsWritten` follows
    the code as it stands, `Intended` the code with its evident defects
    corrected (README.md, Findings). The methods at the end follow the code
    as written and are proved against the `AsWritten` functions. */
module Parser {
  import opened Common
  import opened Cursor
  import opened StringCodec
  import opened NumberCodec

  /** A literal: `fread` of exactly `|text|` bytes, compared with `text`. */
  function Literal(inp: bytes, q: nat, text: bytes, v: Json): (r: Result<(Json, nat)>)
    requires q <= |inp| && |text| > 0
    ensures r.Success? <==> At(inp, q, text)
    ensures r.Success? ==> r.value == (v, q + |text|)
  {
    if At(inp, q, text) then Success((v, q + |text|)) else Failure
  }

  /** `parseValue` (aJSON.cpp:423-516) from position `p`: skip, then look at
      the first significant byte without consuming it. */
  function ParseValueF(inp: bytes, p: nat, d: Dialect): (r: Result<(Json, nat)>)
    requires p <= |inp|
    ensures r.Success? ==> p < r.value.1 <= |inp|
    ensures SkipTo(inp, p) == |inp| ==> r.Failure?
    ensures var q := SkipTo(inp, p);
            q < |inp| && inp[q] == LOWER_N ==> r == Literal(inp, q, NULL_TEXT, JNull)
    ensures var q := SkipTo(inp, p);
            q < |inp| && inp[q] == LOWER_F ==> r == Literal(inp, q, FALSE_TEXT, JFalse)
    ensures var q := SkipTo(inp, p);
            q < |inp| && inp[q] == LOWER_T ==> r == Literal(inp, q, TRUE_TEXT, JTrue)
    ensures r.Success? ==>
              var q := SkipTo(inp, p);
              q < |inp| && (inp[q] == QUOTE || inp[q] == MINUS || IsDigit(inp[q]) ||
                            inp[q] == LBRACKET || inp[q] == LBRACE ||
                            inp[q] == LOWER_N || inp[q] == LOWER_F || inp[q] == LOWER_T)
    decreases |inp| - p, 3
  {
    var q := SkipTo(inp, p);
    if q == |inp| then Failure
    else
      var c := inp[q];
      if c == QUOTE then
        match ParseStringF(inp, q, d)
        case Failure => Failure
        case Success((str, e)) => Success((JString(str), e))
      else if c == MINUS || IsDigit(c) then ParseNumberF(inp, q, d)
      else if c == LBRACKET then ParseArrayF(inp, q, d)
      else if c == LBRACE then ParseObjectF(inp, q, d)
      else if c == LOWER_N then Literal(inp, q, NULL_TEXT, JNull)
      else if c == LOWER_F then Literal(inp, q, FALSE_TEXT, JFalse)
      else if c == LOWER_T then Literal(inp, q, TRUE_TEXT, JTrue)
      else Failure
  }

  /** `parseArray` (aJSON.cpp:558-611) from position `p`. */
  function ParseArrayF(inp: bytes, p: nat, d: Dialect): (r: Result<(Json, nat)>)
    requires p <= |inp|
    ensures r.Success? ==> p < r.value.1 <= |inp|
    decreases |inp| - p, 2
  {
    if Peek(inp, p) != LBRACKET then Failure
    else
      var q1 := SkipTo(inp, p + 1);
      if Peek(inp, q1) == RBRACKET then Success((JArray([]), q1 + 1))
      // pushing back EOF fails
      else if q1 == |inp| then Failure
      else
        match ParseValueF(inp, q1, d)
        case Failure => Failure
        case Success((v, e)) => ArrayTail(inp, SkipTo(inp, e), [v], d)
  }

  /** The element loop of `parseArray`, with the byte at `q` about to be
      read and `items` parsed so far. A comma continues the loop. Any other
      byte ends it: as written this is a success whatever the byte (even
      EOF), and the byte is consumed; as intended only `]` closes the array. */
  function ArrayTail(inp: bytes, q: nat, items: seq<Json>, d: Dialect): (r: Result<(Json, nat)>)
    requires q <= |inp|
    ensures r.Success? ==> q <= r.value.1 <= |inp|
    decreases |inp| - q, 1
  {
    if Peek(inp, q) == COMMA then
      match ParseValueF(inp, SkipTo(inp, q + 1), d)
      case Failure => Failure
      case Success((v, e)) => ArrayTail(inp, SkipTo(inp, e), items + [v], d)
    else if d == AsWritten then Success((JArray(items), Next(inp, q)))
    else if Peek(inp, q) == RBRACKET then Success((JArray(items), q + 1))
    else Failure
  }

  /** `parseObject` (aJSON.cpp:683-767) from position `p`. */
  function ParseObjectF(inp: bytes, p: nat, d: Dialect): (r: Result<(Json, nat)>)
    requires p <= |inp|
    ensures r.Success? ==> p < r.value.1 <= |inp|
    decreases |inp| - p, 2
  {
    if Peek(inp, p) != LBRACE then Failure
    else
      var q1 := SkipTo(inp, p + 1);
      if Peek(inp, q1) == RBRACE then Success((JObject([]), q1 + 1))
      else if d == AsWritten then ObjectAsWritten(inp, q1)
      else ObjectMembers(inp, q1, [])
  }

  /** One member of an object (aJSON.cpp:702-721 and 729-749) from
      position `q`: a string, which becomes the name, then `:` after optional
      space, then a value. */
  function MemberF(inp: bytes, q: nat, d: Dialect): (r: Result<(Member, nat)>)
    requires q <= |inp|
    ensures r.Success? ==> q < r.value.1 <= |inp|
    decreases |inp| - q, 0
  {
    match ParseStringF(inp, q, d)
    case Failure => Failure
    case Success((name, e1)) =>
      var q3 := SkipTo(inp, e1);
      if Peek(inp, q3) != COLON then Failure
      else
        match ParseValueF(inp, SkipTo(inp, q3 + 1), d)
        case Failure => Failure
        case Success((v, e2)) => Success((Member(name, v), e2))
  }

  /** The rest of `parseObject` as written, after the byte at `q1` (which
      is not `}`) was read. That byte is not pushed back, so the name is
      parsed from the next significant byte on. After the first member a
      comma enters the loop, whose body fails whatever it reads (the stray
      `;` at line 752 ends the `if`, and the block after it returns EOF);
      any other byte is consumed and one more byte is read, which must be
      `}`. */
  function ObjectAsWritten(inp: bytes, q1: nat): (r: Result<(Json, nat)>)
    requires q1 <= |inp|
    ensures r.Success? ==> q1 < r.value.1 <= |inp|
    decreases |inp| - q1, 1
  {
    match MemberF(inp, SkipTo(inp, Next(inp, q1)), AsWritten)
    case Failure => Failure
    case Success((m, e)) =>
      var q4 := SkipTo(inp, e);
      if Peek(inp, q4) == COMMA then Failure
      else if Peek(inp, Next(inp, q4)) == RBRACE then
        Success((JObject([m]), Next(inp, q4) + 1))
      else Failure
  }

  /** The member loop of `parseObject` as intended, from the first byte of
      a member's name at `q`: a member, then `,` and the next member, or
      `}`. */
  function ObjectMembers(inp: bytes, q: nat, members: seq<Member>): (r: Result<(Json, nat)>)
    requires q <= |inp|
    ensures r.Success? ==> q < r.value.1 <= |inp|
    decreases |inp| - q, 1
  {
    match MemberF(inp, q, Intended)
    case Failure => Failure
    case Success((m, e)) =>
      var q4 := SkipTo(inp, e);
      if Peek(inp, q4) == COMMA then ObjectMembers(inp, SkipTo(inp, q4 + 1), members + [m])
      else if Peek(inp, q4) == RBRACE then Success((JObject(members + [m]), q4 + 1))
      else Failure
  }

  /** `parse(stream, filter)` (aJSON.cpp:394-413) on a non-null stream:
      whether it returns a node rather than NULL. As written the test of
      `parseValue`'s result is inverted, so a node comes back exactly when
      parsing failed; as intended, exactly when it succeeded. Input with
      nothing above a space gives a node as written and NULL as intended. */
  function ReturnsNode(inp: bytes, d: Dialect): (b: bool)
    ensures SkipTo(inp, 0) == |inp| ==> (b <==> d == AsWritten)
  {
    var r := ParseValueF(inp, SkipTo(inp, 0), d);
    if d == AsWritten then r.Failure? else r.Success?
  }

  /** `parse` as intended: the parsed value, if any. */
  function Parse(inp: bytes): (r: Option<Json>)
    ensures r.Some? <==> ReturnsNode(inp, Intended)
  {
    match ParseValueF(inp, SkipTo(inp, 0), Intended)
    case Failure => None
    case Success((v, _)) => Some(v)
  }

  /** As written, `null` yields NULL while the intended parser returns the
      null value; a byte that starts no value yields a node. */
  lemma {:induction false} ReturnsNodeInverted()
    ensures ParseValueF(NULL_TEXT, 0, AsWritten) == Success((JNull, 4))
    ensures !ReturnsNode(NULL_TEXT, AsWritten)
    ensures Parse(NULL_TEXT) == Some(JNull)
    ensures ReturnsNode([0x78], AsWritten) && Parse([0x78]) == None
  {
    assert SkipTo(NULL_TEXT, 0) == 0;
    assert NULL_TEXT[0..4] == NULL_TEXT;
    assert SkipTo([0x78], 0) == 0;
  }

  // ---------------------------------------------------------------------
  // Properties of the parser as written

  /** An object as written has at most one member: a comma after the first
      member always fails. */
  lemma {:induction false} AtMostOneMember(inp: bytes, p: nat)
    requires p <= |inp|
    ensures ParseObjectF(inp, p, AsWritten).Success? ==>
              ParseObjectF(inp, p, AsWritten).value.0.JObject? &&
              |ParseObjectF(inp, p, AsWritten).value.0.members| <= 1
  {
  }

  /** As written, the quote that opens the first name is consumed and not
      pushed back: an object whose first name starts right after its `{`
      with a byte that is neither space nor quote never parses. */
  lemma {:induction false} QuotedNameFails(inp: bytes, p: nat)
    requires p < |inp| && inp[p] == LBRACE
    requires var q1 := SkipTo(inp, p + 1);
             q1 + 1 < |inp| && inp[q1] == QUOTE && inp[q1 + 1] > SPACE && inp[q1 + 1] != QUOTE
    ensures ParseObjectF(inp, p, AsWritten).Failure?
  {
    var q1 := SkipTo(inp, p + 1);
    SkipToSignificant(inp, q1 + 1);
    assert ParseStringF(inp, q1 + 1, AsWritten).Failure?;
    assert MemberF(inp, SkipTo(inp, Next(inp, q1)), AsWritten).Failure?;
  }

  /** As written, an array ends at whatever byte follows an element: an
      unclosed array is accepted, and the byte after the last element is
      consumed whatever it is. */
  lemma {:induction false} ArrayEndsAnywhere(inp: bytes, q: nat, items: seq<Json>)
    requires q <= |inp| && Peek(inp, q) != COMMA
    ensures ArrayTail(inp, q, items, AsWritten) == Success((JArray(items), Next(inp, q)))
    ensures ArrayTail(inp, q, items, Intended).Success? <==> Peek(inp, q) == RBRACKET
  {
  }

  /** `{x"a":true}}`: as written the object needs a junk byte before the
      name and a second `}`, and with them it parses. */
  lemma {:induction false} ObjectNeedsExtraBytes()
    ensures ParseObjectF(ObjectSample(), 0, AsWritten)
         == Success((JObject([Member([0x61], JTrue)]), 12))
  {
    var inp := ObjectSample();
    assert inp[6..10] == TRUE_TEXT;
    SampleMember(inp);
    SkipToSignificant(inp, 1);
    SkipToSignificant(inp, 2);
    SkipToSignificant(inp, 10);
    SingleMemberAsWritten(inp, 0, 1, Member([0x61], JTrue), 10, 10);
  }

  /** An object as written with one member `m`, read from one byte after
      the first significant byte `q1` behind `{` and ending at `e`, is
      closed by the byte after the one that follows the member. */
  lemma {:induction false} SingleMemberAsWritten(inp: bytes, p: nat, q1: nat, m: Member, e: nat, q4: nat)
    requires p < |inp| && inp[p] == LBRACE
    requires q1 < |inp| && SkipTo(inp, p + 1) == q1 && inp[q1] != RBRACE
    requires MemberF(inp, SkipTo(inp, q1 + 1), AsWritten) == Success((m, e))
    requires SkipTo(inp, e) == q4 && q4 + 1 < |inp| && inp[q4] != COMMA && inp[q4 + 1] == RBRACE
    ensures ParseObjectF(inp, p, AsWritten) == Success((JObject([m]), q4 + 2))
  {
  }

  /** Without the second `}` the object of `ObjectNeedsExtraBytes` fails. */
  lemma {:induction false} ObjectNeedsSecondBrace()
    ensures ParseObjectF(ObjectSample()[..11], 0, AsWritten).Failure?
  {
    var inp := ObjectSample()[..11];
    assert inp == [LBRACE, 0x78, QUOTE, 0x61, QUOTE, COLON] + TRUE_TEXT + [RBRACE];
    assert inp[6..10] == TRUE_TEXT;
    SampleMember(inp);
    assert SkipTo(inp, 1) == 1;
    assert SkipTo(inp, 2) == 2;
    assert SkipTo(inp, 10) == 10;
  }

  /** The member `"a":true` at position 2 of the sample. */
  lemma {:induction false} SampleMember(inp: bytes)
    requires |inp| > 10 && inp[2] == QUOTE && inp[3] == 0x61 && inp[4] == QUOTE
    requires inp[5] == COLON && inp[6..10] == TRUE_TEXT
    ensures MemberF(inp, 2, AsWritten) == Success((Member([0x61], JTrue), 10))
  {
    assert StringBody(inp, 4, [0x61], AsWritten) == Success(([0x61], 5));
    assert StringBody(inp, 3, [], AsWritten) == StringBody(inp, 4, [0x61], AsWritten);
    assert ParseStringF(inp, 2, AsWritten) == Success(([0x61], 5));
    assert SkipTo(inp, 5) == 5;
    assert SkipTo(inp, 6) == 6;
    assert inp[6..10] == TRUE_TEXT;
    assert ParseValueF(inp, 6, AsWritten) == Success((JTrue, 10));
  }

  /** The bytes of `{x"a":true}}`. */
  function ObjectSample(): (b: bytes)
    ensures |b| == 12
  {
    [LBRACE, 0x78, QUOTE, 0x61, QUOTE, COLON] + TRUE_TEXT + [RBRACE, RBRACE]
  }

  // ---------------------------------------------------------------------
  // The parser as written, on the stream

  /** `parseValue` as written. */
  method ParseValue(s: Stream?) returns (r: int, v: Json)
    requires s != null ==> s.Valid()
    modifies s
    ensures s == null ==> r == EOF
    ensures s != null ==> s.Valid()
    ensures r == 0 || r == EOF
    ensures s != null ==> (r == 0 <==> ParseValueF(s.input, old(s.pos), AsWritten).Success?)
    ensures s != null && r == 0 ==> ParseValueF(s.input, old(s.pos), AsWritten).value == (v, s.pos)
    decreases if s == null then 0 else |s.input| - s.pos, 3
  {
    v := JNull;
    if s == null {
      return EOF, v;
    }
    var sk := Skip(s);
    if sk != 0 {
      return EOF, v;
    }
    // `skip` returned 0, so a byte follows and reading it cannot give EOF;
    // pushing that byte back cannot fail.
    var c := s.Getc();
    var u := s.Ungetc(c);
    if c == QUOTE {
      var str;
      r, str := ParseString(s);
      v := JString(str);
    } else if c == MINUS || IsDigit(c) {
      r, v := ParseNumber(s);
    } else if c == LBRACKET {
      r, v := ParseArray(s);
    } else if c == LBRACE {
      r, v := ParseObject(s);
    } else if c == LOWER_N {
      r, v := ReadLiteral(s, NULL_TEXT, JNull);
    } else if c == LOWER_F {
      r, v := ReadLiteral(s, FALSE_TEXT, JFalse);
    } else if c == LOWER_T {
      r, v := ReadLiteral(s, TRUE_TEXT, JTrue);
    } else {
      r := EOF;
    }
  }

  /** The literal branches of `parseValue`: `fread` into a buffer, fail on
      a short read, then compare. */
  method ReadLiteral(s: Stream, text: bytes, lit: Json) returns (r: int, v: Json)
    requires s.Valid() && |text| > 0
    modifies s`pos
    ensures s.Valid()
    ensures r == 0 || r == EOF
    ensures r == 0 <==> Literal(s.input, old(s.pos), text, lit).Success?
    ensures r == 0 ==> Literal(s.input, old(s.pos), text, lit).value == (v, s.pos)
  {
    v := lit;
    ghost var p0 := s.pos;
    var buffer := s.Fread(|text|);
    if |buffer| != |text| {
      return EOF, v;
    }
    if buffer == text {
      return 0, v;
    }
    if At(s.input, p0, text) {
      AtSlice(s.input, p0, text);
    }
    return EOF, v;
  }

  /** `parseArray` as written. */
  method ParseArray(s: Stream) returns (r: int, v: Json)
    requires s.Valid()
    modifies s
    ensures s.Valid()
    ensures r == 0 || r == EOF
    ensures r == 0 <==> ParseArrayF(s.input, old(s.pos), AsWritten).Success?
    ensures r == 0 ==> ParseArrayF(s.input, old(s.pos), AsWritten).value == (v, s.pos)
    decreases |s.input| - s.pos, 2
  {
    ghost var p0 := s.pos;
    v := JNull;
    var c := s.Getc();
    if c != LBRACKET {
      return EOF, v;
    }
    var sk := Skip(s);
    c := s.Getc();
    if c == RBRACKET {
      return 0, JArray([]);
    }
    var u := s.Ungetc(c);
    if u == EOF {
      return EOF, v;
    }
    sk := Skip(s);
    SkipToSignificant(s.input, s.pos);
    var rv, item := ParseValue(s);
    if rv != 0 {
      return EOF, v;
    }
    var items := [item];
    sk := Skip(s);
    ghost var q := s.pos;
    c := s.Getc();
    while c == COMMA
      invariant ReadAt(s, c, q) && p0 < q
      invariant ParseArrayF(s.input, p0, AsWritten) == ArrayTail(s.input, q, items, AsWritten)
      decreases |s.input| - q
    {
      sk := Skip(s);
      rv, item := ParseValue(s);
      if rv != 0 {
        return EOF, v;
      }
      items := items + [item];
      sk := Skip(s);
      q := s.pos;
      c := s.Getc();
    }
    return 0, JArray(items);
  }

  /** Reading one member in `parseObject` as written: the name, `:` and
      the value. */
  method ReadMember(s: Stream) returns (r: int, m: Member)
    requires s.Valid()
    modifies s
    ensures s.Valid()
    ensures r == 0 || r == EOF
    ensures r == 0 <==> MemberF(s.input, old(s.pos), AsWritten).Success?
    ensures r == 0 ==> MemberF(s.input, old(s.pos), AsWritten).value == (m, s.pos)
    decreases |s.input| - s.pos, 0
  {
    m := Member([], JNull);
    var rs, name := ParseString(s);
    if rs == EOF {
      return EOF, m;
    }
    var sk := Skip(s);
    // the name moves from `valuestring` to `name`
    var c := s.Getc();
    if c != COLON {
      return EOF, m;
    }
    sk := Skip(s);
    var rv, value := ParseValue(s);
    if rv != 0 {
      return EOF, m;
    }
    return 0, Member(name, value);
  }

  /** `parseObject` as written. */
  method ParseObject(s: Stream) returns (r: int, v: Json)
    requires s.Valid()
    modifies s
    ensures s.Valid()
    ensures r == 0 || r == EOF
    ensures r == 0 <==> ParseObjectF(s.input, old(s.pos), AsWritten).Success?
    ensures r == 0 ==> ParseObjectF(s.input, old(s.pos), AsWritten).value == (v, s.pos)
    decreases |s.input| - s.pos, 2
  {
    v := JNull;
    var c := s.Getc();
    if c != LBRACE {
      return EOF, v;
    }
    var sk := Skip(s);
    c := s.Getc();
    if c == RBRACE {
      return 0, JObject([]);
    }
    // the byte just read is not pushed back
    sk := Skip(s);
    var rm, m := ReadMember(s);
    if rm != 0 {
      return EOF, v;
    }
    sk := Skip(s);
    c := s.Getc();
    if c == COMMA {
      // The `while (in == ',')` loop: one more byte is read, then a member;
      // the `if` around the member's value ends at its stray `;`, and the
      // block after it returns EOF on every path, so the loop never repeats.
      c := s.Getc();
      sk := Skip(s);
      rm, m := ReadMember(s);
      return EOF, v;
    }
    c := s.Getc();
    if c == RBRACE {
      return 0, JObject([m]);
    }
    return EOF, v;
  }

  /** `parse(stream, filter)` as written: whether a node is returned. The
      leading `skip` has its result ignored; allocation does not fail here. */
  method ParseStream(s: Stream?) returns (node: bool)
    requires s != null ==> s.Valid()
    modifies s
    ensures s == null ==> !node
    ensures s != null ==> (node <==> !ParseValueF(s.input, SkipTo(s.input, old(s.pos)), AsWritten).Success?)
  {
    if s == null {
      return false;
    }
    var sk := Skip(s);
    var r, v := ParseValue(s);
    if r == 0 {
      // the success branch frees the node and returns NULL
      return false;
    }
    return true;
  }
}
