/** The string codec: `printStringPtr` escapes a C string into a buffer it
    sizes first; `parseString` decodes a quoted string from the stream into a
    buffer grown by `addToBuffer`. */
module StringCodec {
  import opened Common
  import opened Cursor

  /** A C string: no byte of it is the terminating 0. */
  predicate NulFree(s: bytes)
  {
    forall i :: 0 <= i < |s| ==> s[i] != 0
  }

  /** The test of the counting loop (aJSON.cpp:298): bytes that need a
      backslash. */
  predicate NeedsEscape(b: byte)
  {
    b < 32 || b == QUOTE || b == BACKSLASH
  }

  /** The five control bytes that have a one-letter escape. */
  predicate HasLetterEscape(b: byte)
  {
    b == BS || b == FF || b == LF || b == CR || b == TAB
  }

  /** The byte the `switch` of the write loop (aJSON.cpp:317-340) writes
      after the backslash; -1 for its default case. */
  function EscapeLetter(b: byte): (l: int)
    ensures l == -1 || 0 <= l < 256
  {
    if b == BACKSLASH then BACKSLASH
    else if b == QUOTE then QUOTE
    else if b == BS then LOWER_B
    else if b == FF then LOWER_F
    else if b == LF then LOWER_N
    else if b == CR then LOWER_R
    else if b == TAB then LOWER_T
    else -1
  }

  /** What the write loop (aJSON.cpp:310-345) emits for one input byte. */
  function EscapeByte(b: byte): bytes
  {
    if b > 31 && b != QUOTE && b != BACKSLASH then [b]
    else if EscapeLetter(b) != -1 then [BACKSLASH, EscapeLetter(b)]
    else []  // the backslash already written is taken back (ptr2--)
  }

  /** The escaped body: each byte's escape, in order. */
  function Escape(s: bytes): bytes
    decreases |s|
  {
    if s == [] then [] else Escape(s[..|s| - 1]) + EscapeByte(s[|s| - 1])
  }

  /** The number of bytes the counting loop adds one extra byte for. */
  function EscapeCount(s: bytes): nat
    decreases |s|
  {
    if s == [] then 0
    else EscapeCount(s[..|s| - 1]) + (if NeedsEscape(s[|s| - 1]) then 1 else 0)
  }

  /** Escaping distributes over concatenation. */
  lemma {:induction false} EscapeAppend(a: bytes, b: bytes)
    ensures Escape(a + b) == Escape(a) + Escape(b)
    decreases |b|
  {
    if b == [] {
      assert a + b == a;
    } else {
      var b' := b[..|b| - 1];
      assert (a + b)[..|a + b| - 1] == a + b';
      EscapeAppend(a, b');
    }
  }

  lemma {:induction false} EscapeCountAppend(a: bytes, b: bytes)
    ensures EscapeCount(a + b) == EscapeCount(a) + EscapeCount(b)
    decreases |b|
  {
    if b == [] {
      assert a + b == a;
    } else {
      var b' := b[..|b| - 1];
      assert (a + b)[..|a + b| - 1] == a + b';
      EscapeCountAppend(a, b');
    }
  }

  /** Escaping peels off its first byte. */
  lemma {:induction false} EscapeCons(b: byte, s: bytes)
    ensures Escape([b] + s) == EscapeByte(b) + Escape(s)
  {
    EscapeAppend([b], s);
    assert [b][..0] == [];
  }

  /** The escaped body never outgrows the length the counting loop computes,
      and fills it exactly when no control byte without a letter escape is
      dropped: the buffer `printStringPtr` allocates is large enough. */
  lemma {:induction false} EscapeLength(s: bytes)
    ensures |Escape(s)| <= |s| + EscapeCount(s)
    ensures |Escape(s)| == |s| + EscapeCount(s) <==>
              forall i :: 0 <= i < |s| ==> s[i] >= 32 || HasLetterEscape(s[i])
    decreases |s|
  {
    if s != [] {
      var s' := s[..|s| - 1];
      EscapeLength(s');
      if forall i :: 0 <= i < |s| ==> s[i] >= 32 || HasLetterEscape(s[i]) {
        assert forall i :: 0 <= i < |s'| ==> s'[i] >= 32 || HasLetterEscape(s'[i]) by {
          forall i | 0 <= i < |s'| ensures s'[i] >= 32 || HasLetterEscape(s'[i]) {
            assert s'[i] == s[i];
          }
        }
      } else if s[|s| - 1] >= 32 || HasLetterEscape(s[|s| - 1]) {
        var i :| 0 <= i < |s| && !(s[i] >= 32 || HasLetterEscape(s[i]));
        assert s'[i] == s[i];
      }
    }
  }

  /** The counting loop of `printStringPtr` (aJSON.cpp:295-301): one for each
      byte, one more for each byte below 32, quote or backslash. */
  method EscapedLength(s: bytes) returns (len: int)
    ensures len == |s| + EscapeCount(s)
    ensures |Escape(s)| <= len
  {
    len := 0;
    var i := 0;
    while i < |s|
      invariant 0 <= i <= |s|
      invariant len == i + EscapeCount(s[..i])
    {
      len := len + 1;
      if NeedsEscape(s[i]) {
        len := len + 1;
      }
      assert s[..i + 1][..i] == s[..i];
      i := i + 1;
    }
    assert s[..i] == s;
    EscapeLength(s);
  }

  /** Extending the processed prefix by one byte. */
  lemma {:induction false} EscapePrefixStep(s: bytes, i: nat)
    requires i < |s|
    ensures Escape(s[..i + 1]) == Escape(s[..i]) + EscapeByte(s[i])
    ensures EscapeCount(s[..i + 1]) <= EscapeCount(s)
    ensures |Escape(s[..i + 1])| <= i + 1 + EscapeCount(s[..i + 1])
  {
    EscapeLength(s[..i + 1]);
    assert s[..i + 1][..i] == s[..i];
    EscapeCountAppend(s[..i + 1], s[i + 1..]);
    assert s[..i + 1] + s[i + 1..] == s;
  }

  /** One step of the write loop of `printStringPtr` (aJSON.cpp:312-343):
      writes the escape of `c` at `k` and returns the new write position. */
  method WriteEscaped(out: array<byte>, k: nat, c: byte) returns (k': nat)
    requires k + 2 <= out.Length
    modifies out
    ensures k' == k + |EscapeByte(c)|
    ensures out[..k'] == old(out[..k]) + EscapeByte(c)
  {
    ghost var pre := out[..k];
    k' := k;
    if c > 31 && c != QUOTE && c != BACKSLASH {
      out[k'] := c;
      k' := k' + 1;
      assert out[..k'] == pre + [c];
    } else {
      out[k'] := BACKSLASH;
      k' := k' + 1;
      if c == BACKSLASH {
        out[k'] := BACKSLASH;
        k' := k' + 1;
      } else if c == QUOTE {
        out[k'] := QUOTE;
        k' := k' + 1;
      } else if c == BS {
        out[k'] := LOWER_B;
        k' := k' + 1;
      } else if c == FF {
        out[k'] := LOWER_F;
        k' := k' + 1;
      } else if c == LF {
        out[k'] := LOWER_N;
        k' := k' + 1;
      } else if c == CR {
        out[k'] := LOWER_R;
        k' := k' + 1;
      } else if c == TAB {
        out[k'] := LOWER_T;
        k' := k' + 1;
      } else {
        k' := k' - 1;  // ptr2--: the backslash is taken back
      }
      if k' == k {
        assert out[..k'] == pre;
      } else {
        assert out[k + 1] == EscapeLetter(c);
        assert out[..k'] == pre + [BACKSLASH, out[k + 1]];
      }
    }
  }

  /** `printStringPtr` (aJSON.cpp:286-349). For a null pointer the result is
      the empty C string. Otherwise the buffer has `len + 3` bytes and holds
      a quote, the escaped body, a quote and the terminating 0. */
  method PrintStringPtr(str: Option<bytes>) returns (out: array<byte>)
    requires str.Some? ==> NulFree(str.value)
    ensures fresh(out)
    ensures str.None? ==> out[..] == [0]
    ensures str.Some? ==> |Escape(str.value)| <= |str.value| + EscapeCount(str.value)
    ensures str.Some? ==> out.Length == |str.value| + EscapeCount(str.value) + 3
    ensures str.Some? ==>
      out[..|Escape(str.value)| + 3] == [QUOTE] + Escape(str.value) + [QUOTE, 0]
  {
    if str.None? {
      out := new byte[1](_ => 0);
      return;
    }
    var s := str.value;
    var len := EscapedLength(s);
    out := new byte[len + 3](_ => 0);
    EscapeLength(s);
    var k := WriteQuoted(out, s);
  }

  /** The write loop of `printStringPtr` (aJSON.cpp:307-347) into a buffer
      large enough for the escaped string; returns the length written. */
  method WriteQuoted(out: array<byte>, s: bytes) returns (k: nat)
    requires out.Length == |s| + EscapeCount(s) + 3
    modifies out
    ensures k == |Escape(s)| + 2 && k < out.Length
    ensures out[..k + 1] == [QUOTE] + Escape(s) + [QUOTE, 0]
  {
    var i := 0;
    out[0] := QUOTE;
    k := 1;
    while i < |s|
      invariant 0 <= i <= |s|
      invariant k == 1 + |Escape(s[..i])|
      invariant k <= 1 + i + EscapeCount(s[..i]) && EscapeCount(s[..i]) <= EscapeCount(s)
      invariant out[..k] == [QUOTE] + Escape(s[..i])
    {
      EscapePrefixStep(s, i);
      ghost var pre := Escape(s[..i]);
      k := WriteEscaped(out, k, s[i]);
      AppendAssoc([QUOTE], pre, EscapeByte(s[i]));
      i := i + 1;
    }
    assert s[..i] == s;
    ghost var body := out[..k];
    out[k] := QUOTE;
    out[k + 1] := 0;
    assert out[..k + 2] == body + [QUOTE, 0];
    k := k + 1;
  }

  /** What the `switch` of `parseString` (aJSON.cpp:234-259) stores for the
      byte after a backslash. As written only the five letters are
      understood; the intended codec also maps a quote and a backslash to
      themselves, as `printStringPtr` produces them. */
  function Unescaped(e: byte, d: Dialect): (r: bytes)
    ensures |r| <= 1
    ensures e == LOWER_B ==> r == [BS]
    ensures e == LOWER_F ==> r == [FF]
    ensures e == LOWER_N ==> r == [LF]
    ensures e == LOWER_R ==> r == [CR]
    ensures e == LOWER_T ==> r == [TAB]
    ensures (e == QUOTE || e == BACKSLASH) ==> r == (if d == Intended then [e] else [])
    ensures (e != LOWER_B && e != LOWER_F && e != LOWER_N && e != LOWER_R && e != LOWER_T &&
             e != QUOTE && e != BACKSLASH) ==> r == []
  {
    if e == LOWER_B then [BS]
    else if e == LOWER_F then [FF]
    else if e == LOWER_N then [LF]
    else if e == LOWER_R then [CR]
    else if e == LOWER_T then [TAB]
    else if d == Intended && (e == QUOTE || e == BACKSLASH) then [e]
    else []
  }

  /** `addToBuffer` as it is evidently meant (aJSON.cpp:1166-1184): store the
      byte after the ones stored. */
  function AddToBuffer(buffer: bytes, value: byte): (r: bytes)
    ensures |r| == |buffer| + 1 && r[..|buffer|] == buffer && r[|buffer|] == value
  {
    buffer + [value]
  }

  /** `addToBuffer` as written: `(buffer_bytes + 1) >= buffer_length`
      compares the addresses of the caller's two counters, not their values,
      so the outcome `grows` is fixed by the stack layout for the whole call
      of `parseString`. The byte is stored only on the growing branch. */
  function AddToBufferAsWritten(grows: bool, buffer: bytes, value: byte): (r: bytes)
    ensures grows ==> r == AddToBuffer(buffer, value)
    ensures !grows ==> r == buffer
  {
    if grows then buffer + [value] else buffer
  }

  /** Storing bytes one by one through `addToBuffer` as written. */
  function StoreAllAsWritten(grows: bool, buffer: bytes, s: bytes): bytes
    decreases |s|
  {
    if s == [] then buffer else StoreAllAsWritten(grows, AddToBufferAsWritten(grows, buffer, s[0]), s[1..])
  }

  /** With the unlucky layout, nothing is ever stored, not even the
      terminating 0 of aJSON.cpp:268. */
  lemma {:induction false} StoreAllLosesEverything(buffer: bytes, s: bytes)
    ensures StoreAllAsWritten(false, buffer, s) == buffer
    ensures StoreAllAsWritten(true, buffer, s) == buffer + s
    decreases |s|
  {
    if s != [] {
      StoreAllLosesEverything(buffer, s[1..]);
      StoreAllLosesEverything(buffer + [s[0]], s[1..]);
      assert buffer + [s[0]] + s[1..] == buffer + s;
    }
  }

  /** The loop of `parseString` (aJSON.cpp:219-280) from a position `q`
      whose byte has just been read, with `acc` stored so far. A quote or a
      byte up to 31 ends the string and is consumed; an input that ends
      before that is a failure. Returns the stored bytes and the position
      after the terminator. */
  function StringBody(inp: bytes, q: nat, acc: bytes, d: Dialect): (r: Result<(bytes, nat)>)
    requires q < |inp|
    ensures r.Success? ==> q < r.value.1 <= |inp|
    decreases |inp| - q
  {
    var c := inp[q];
    if c == QUOTE || c <= 31 then Success((acc, q + 1))
    else if c != BACKSLASH then
      if q + 1 < |inp| then StringBody(inp, q + 1, AddToBuffer(acc, c), d) else Failure
    else if q + 2 < |inp| then StringBody(inp, q + 2, acc + Unescaped(inp[q + 1], d), d)
    else Failure
  }

  /** `parseString`: the first byte must be a quote and another byte must
      follow it. */
  function ParseStringF(inp: bytes, p: nat, d: Dialect): (r: Result<(bytes, nat)>)
    requires p <= |inp|
    ensures r.Success? ==> p < |inp| && inp[p] == QUOTE && p + 1 < r.value.1 <= |inp|
    ensures r.Success? ==> inp[r.value.1 - 1] == QUOTE || inp[r.value.1 - 1] <= 31
  {
    if p >= |inp| || inp[p] != QUOTE then Failure
    else if p + 1 >= |inp| then Failure
    else StringBodyEnds(inp, p + 1, [], d); StringBody(inp, p + 1, [], d)
  }

  /** The string body stops only on a terminator. */
  lemma {:induction false} StringBodyEnds(inp: bytes, q: nat, acc: bytes, d: Dialect)
    requires q < |inp|
    ensures StringBody(inp, q, acc, d).Success? ==>
      var e := StringBody(inp, q, acc, d).value.1;
      inp[e - 1] == QUOTE || inp[e - 1] <= 31
    decreases |inp| - q
  {
    var c := inp[q];
    if c == QUOTE || c <= 31 {
    } else if c != BACKSLASH {
      if q + 1 < |inp| { StringBodyEnds(inp, q + 1, AddToBuffer(acc, c), d); }
    } else if q + 2 < |inp| {
      StringBodyEnds(inp, q + 2, acc + Unescaped(inp[q + 1], d), d);
    }
  }

  /** A byte that ends the string loop: a quote or a control byte. */
  predicate Terminator(c: byte)
  {
    c == QUOTE || c <= 31
  }

  /** The text between the quotes that the string loop accepts: bytes
      above 31 other than a quote or a backslash, each standing for itself,
      and backslash pairs, whose second byte may be anything. */
  predicate WellFormedBody(t: bytes)
    decreases |t|
  {
    if t == [] then true
    else if t[0] == BACKSLASH then |t| >= 2 && WellFormedBody(t[2..])
    else !Terminator(t[0]) && WellFormedBody(t[1..])
  }

  /** The bytes stored for a body: a plain byte is stored, a backslash
      pair stores what the escape `switch` makes of its second byte. */
  function Decoded(t: bytes, d: Dialect): bytes
    decreases |t|
  {
    if t == [] then []
    else if t[0] == BACKSLASH then
      if |t| >= 2 then Unescaped(t[1], d) + Decoded(t[2..], d) else []
    else [t[0]] + Decoded(t[1..], d)
  }

  /** The string loop from `q` succeeds, storing `s` and stopping at `e`,
      exactly when the bytes from `q` up to `e - 1` form a body and the
      byte at `e - 1` ends the string: the loop stops at the first
      terminator that is not the second byte of a backslash pair. */
  lemma {:induction false} StringBodySpec(inp: bytes, q: nat, acc: bytes, d: Dialect, s: bytes, e: nat)
    requires q < |inp|
    ensures StringBody(inp, q, acc, d) == Success((s, e)) <==>
              q < e <= |inp| && WellFormedBody(inp[q..e - 1]) && Terminator(inp[e - 1]) &&
              s == acc + Decoded(inp[q..e - 1], d)
    decreases |inp| - q
  {
    var c := inp[q];
    if Terminator(c) {
      if q < e <= |inp| && WellFormedBody(inp[q..e - 1]) {
        var t := inp[q..e - 1];
        if t != [] {
          assert false;
        }
        assert acc + Decoded(t, d) == acc;
      }
      assert inp[q..q] == [];
      assert acc + Decoded(inp[q..q], d) == acc;
    } else if c != BACKSLASH {
      if q + 1 < |inp| {
        StringBodySpec(inp, q + 1, acc + [c], d, s, e);
        if q + 1 < e <= |inp| {
          var t := inp[q..e - 1];
          assert t[0] == c && t[1..] == inp[q + 1..e - 1];
          assert Decoded(t, d) == [c] + Decoded(t[1..], d);
          AppendAssoc(acc, [c], Decoded(t[1..], d));
        }
        if q < e <= |inp| && WellFormedBody(inp[q..e - 1]) && Terminator(inp[e - 1]) {
          assert e != q + 1;
        }
      } else if q < e <= |inp| && WellFormedBody(inp[q..e - 1]) {
        assert e == q + 1;
      }
    } else {
      if q + 2 < |inp| {
        var u := Unescaped(inp[q + 1], d);
        StringBodySpec(inp, q + 2, acc + u, d, s, e);
        if q + 2 < e <= |inp| {
          var t := inp[q..e - 1];
          assert t[0] == BACKSLASH && t[1] == inp[q + 1] && t[2..] == inp[q + 2..e - 1];
          assert Decoded(t, d) == u + Decoded(t[2..], d);
          AppendAssoc(acc, u, Decoded(t[2..], d));
        }
        if q < e <= |inp| && WellFormedBody(inp[q..e - 1]) && Terminator(inp[e - 1]) {
          var t := inp[q..e - 1];
          assert t != [] by { assert !Terminator(inp[e - 1]) || e - 1 != q; }
          assert t[0] == BACKSLASH;
          assert e - 1 >= q + 2;
          assert e != q + 2 by { assert t[1] == inp[q + 1]; }
        }
      } else if q < e <= |inp| && WellFormedBody(inp[q..e - 1]) && Terminator(inp[e - 1]) {
        assert false;
      }
    }
  }

  /** `parseString` from `p` succeeds, giving `s` and stopping at `e`,
      exactly when `p` holds a quote and the bytes after it up to `e - 1`
      form a body ended by a terminator at `e - 1`; `s` is the decoded body. */
  lemma {:induction false} ParseStringSpec(inp: bytes, p: nat, d: Dialect, s: bytes, e: nat)
    requires p <= |inp|
    ensures ParseStringF(inp, p, d) == Success((s, e)) <==>
              p < |inp| && inp[p] == QUOTE && p + 1 < e <= |inp| &&
              WellFormedBody(inp[p + 1..e - 1]) && Terminator(inp[e - 1]) &&
              s == Decoded(inp[p + 1..e - 1], d)
  {
    if p < |inp| && inp[p] == QUOTE && p + 1 < |inp| {
      StringBodySpec(inp, p + 1, [], d, s, e);
      if p + 1 < e <= |inp| {
        assert [] + Decoded(inp[p + 1..e - 1], d) == Decoded(inp[p + 1..e - 1], d);
      }
    }
  }

  /** The bytes a string may hold for it to survive printing and parsing
      again: a byte above 31 or one of the five letter-escaped controls; as
      written, a quote or a backslash is lost on the way back. */
  predicate Survives(b: byte, d: Dialect)
  {
    HasLetterEscape(b) || (b > 31 && (d == Intended || (b != QUOTE && b != BACKSLASH)))
  }

  /** Every byte of `s` survives. */
  predicate AllSurvive(s: bytes, d: Dialect)
    decreases |s|
  {
    s == [] || (Survives(s[0], d) && AllSurvive(s[1..], d))
  }

  /** Decoding gives back one escaped byte. */
  lemma {:induction false} UnescapeEscape(b: byte, d: Dialect)
    requires Survives(b, d) && NeedsEscape(b)
    ensures |EscapeByte(b)| == 2 && EscapeByte(b)[0] == BACKSLASH
    ensures Unescaped(EscapeByte(b)[1], d) == [b]
  {
  }

  /** The string loop decodes the escape of one byte. */
  lemma {:induction false} StringBodyStep(inp: bytes, q: nat, acc: bytes, b: byte, d: Dialect)
    requires Survives(b, d)
    requires At(inp, q, EscapeByte(b)) && q + |EscapeByte(b)| < |inp|
    ensures StringBody(inp, q, acc, d) == StringBody(inp, q + |EscapeByte(b)|, acc + [b], d)
  {
    var e := EscapeByte(b);
    AtIndex(inp, q, e, 0);
    if NeedsEscape(b) {
      UnescapeEscape(b, d);
      AtIndex(inp, q, e, 1);
    }
  }

  /** An escaped body that stands in the input splits into the escape of
      its first byte and the escaped rest. */
  lemma {:induction false} EscapedHead(inp: bytes, q: nat, b: byte, tail: bytes)
    requires At(inp, q, Escape([b] + tail) + [QUOTE])
    ensures |Escape([b] + tail)| == |EscapeByte(b)| + |Escape(tail)|
    ensures At(inp, q, EscapeByte(b))
    ensures At(inp, q + |EscapeByte(b)|, Escape(tail) + [QUOTE])
  {
    EscapeHead(b, tail);
    AtSplit(inp, q, EscapeByte(b), Escape(tail) + [QUOTE]);
  }

  /** The escaped body followed by a quote, split after the escape of its
      first byte. */
  lemma {:induction false} EscapeHead(b: byte, tail: bytes)
    ensures |Escape([b] + tail)| == |EscapeByte(b)| + |Escape(tail)|
    ensures Escape([b] + tail) + [QUOTE] == EscapeByte(b) + (Escape(tail) + [QUOTE])
  {
    EscapeCons(b, tail);
  }

  /** The string loop decodes an escaped body followed by a quote and
      stops at `end`, right after the quote. */
  lemma {:induction false} StringBodyDecodes(inp: bytes, q: nat, acc: bytes, s: bytes, end: nat, d: Dialect)
    requires AllSurvive(s, d)
    requires At(inp, q, Escape(s) + [QUOTE]) && end == q + |Escape(s)| + 1
    ensures StringBody(inp, q, acc, d) == Success((acc + s, end))
    decreases |s|
  {
    if s == [] {
      AtIndex(inp, q, Escape(s) + [QUOTE], 0);
      assert acc + s == acc;
    } else {
      var q' := StringBodyNext(inp, q, acc, s, d);
      StringBodyDecodes(inp, q', acc + [s[0]], s[1..], end, d);
      Shift(acc, s);
    }
  }

  /** The string loop decodes the first byte of an escaped body and goes
      on at `q'` with the rest. */
  lemma {:induction false} StringBodyNext(inp: bytes, q: nat, acc: bytes, s: bytes, d: Dialect) returns (q': nat)
    requires s != [] && AllSurvive(s, d)
    requires At(inp, q, Escape(s) + [QUOTE])
    ensures q' == q + |EscapeByte(s[0])| && q' + |Escape(s[1..])| == q + |Escape(s)|
    ensures At(inp, q', Escape(s[1..]) + [QUOTE]) && AllSurvive(s[1..], d)
    ensures StringBody(inp, q, acc, d) == StringBody(inp, q', acc + [s[0]], d)
  {
    q' := q + |EscapeByte(s[0])|;
    assert s == [s[0]] + s[1..];
    EscapedHead(inp, q, s[0], s[1..]);
    AtIndex(inp, q', Escape(s[1..]) + [QUOTE], |Escape(s[1..])|);
    StringBodyStep(inp, q, acc, s[0], d);
  }

  /** `parseString` on an opening quote with a byte after it runs the
      string loop from that byte. */
  lemma {:induction false} OpenQuote(inp: bytes, p: nat, q: nat, d: Dialect)
    requires q == p + 1 && q < |inp| && inp[p] == QUOTE
    ensures ParseStringF(inp, p, d) == StringBody(inp, q, [], d)
  {
  }

  /** Parsing what `printStringPtr` writes gives the string back, and stops
      right after the closing quote. */
  lemma {:induction false} StringRoundTrip(inp: bytes, p: nat, s: bytes, d: Dialect, e: nat)
    requires AllSurvive(s, d)
    requires At(inp, p, [QUOTE] + (Escape(s) + [QUOTE])) && e == p + |Escape(s)| + 2
    ensures ParseStringF(inp, p, d) == Success((s, e))
  {
    var q := p + 1;
    AtSplit(inp, p, [QUOTE], Escape(s) + [QUOTE]);
    AtIndex(inp, p, [QUOTE], 0);
    AtIndex(inp, q, Escape(s) + [QUOTE], |Escape(s)|);
    OpenQuote(inp, p, q, d);
    StringBodyDecodes(inp, q, [], s, e, d);
    assert [] + s == s;
  }

  /** As written, an escaped quote is lost: `"\""` parses to the empty
      string, not to a quote. */
  lemma {:induction false} EscapedQuoteIsDropped()
    ensures ParseStringF([QUOTE, BACKSLASH, QUOTE, QUOTE], 0, AsWritten) == Success(([], 4))
    ensures ParseStringF([QUOTE, BACKSLASH, QUOTE, QUOTE], 0, Intended) == Success(([QUOTE], 4))
  {
    var inp: bytes := [QUOTE, BACKSLASH, QUOTE, QUOTE];
    assert inp[1] == BACKSLASH;
    var closed := StringBody(inp, 3, [], AsWritten);
    assert closed == Success(([], 4));
    assert StringBody(inp, 1, [], AsWritten)
        == StringBody(inp, 3, [] + Unescaped(inp[2], AsWritten), AsWritten);
    assert [] + Unescaped(inp[2], AsWritten) == [];
    var kept := StringBody(inp, 3, [QUOTE], Intended);
    assert kept == Success(([QUOTE], 4));
    assert StringBody(inp, 1, [], Intended)
        == StringBody(inp, 3, [] + Unescaped(inp[2], Intended), Intended);
    assert [] + Unescaped(inp[2], Intended) == [QUOTE];
  }

  /** The `switch` on the byte after a backslash (aJSON.cpp:234-259). */
  method StoreEscaped(buffer: bytes, c: byte) returns (buffer': bytes)
    ensures buffer' == buffer + Unescaped(c, AsWritten)
  {
    buffer' := buffer;
    if c == LOWER_B {
      buffer' := AddToBuffer(buffer', BS);
    } else if c == LOWER_F {
      buffer' := AddToBuffer(buffer', FF);
    } else if c == LOWER_N {
      buffer' := AddToBuffer(buffer', LF);
    } else if c == LOWER_R {
      buffer' := AddToBuffer(buffer', CR);
    } else if c == LOWER_T {
      buffer' := AddToBuffer(buffer', TAB);
    } else {
      // not understood: skipped
    }
  }

  /** One turn of the string loop on a byte that does not end it. */
  lemma {:induction false} StringBodyAdvance(inp: bytes, q: nat, acc: bytes, d: Dialect)
    requires q < |inp| && !Terminator(inp[q])
    ensures inp[q] != BACKSLASH ==>
              StringBody(inp, q, acc, d)
                == if q + 1 < |inp| then StringBody(inp, q + 1, AddToBuffer(acc, inp[q]), d) else Failure
    ensures inp[q] == BACKSLASH ==>
              StringBody(inp, q, acc, d)
                == if q + 2 < |inp| then StringBody(inp, q + 2, acc + Unescaped(inp[q + 1], d), d) else Failure
  {
  }

  /** One turn of the loop of `parseString` (aJSON.cpp:223-266) on the byte
      `c0` just read, which does not end the string: store it, or read the
      byte after a backslash and store what the escape gives, then read the
      next byte. `ok` is false when a read gives EOF. */
  method StringStep(s: Stream, c0: int, buffer: bytes) returns (ok: bool, c: int, buffer': bytes)
    requires s.Valid() && 0 < s.pos && c0 == s.input[s.pos - 1] && c0 != QUOTE && c0 > 31
    modifies s`pos
    ensures s.Valid()
    ensures !ok ==> StringBody(s.input, old(s.pos) - 1, buffer, AsWritten).Failure?
    ensures ok ==> old(s.pos) < s.pos && c == s.input[s.pos - 1] &&
                   StringBody(s.input, old(s.pos) - 1, buffer, AsWritten)
                     == StringBody(s.input, s.pos - 1, buffer', AsWritten)
  {
    ghost var q := s.pos - 1;
    StringBodyAdvance(s.input, q, buffer, AsWritten);
    c := c0;
    buffer' := buffer;
    if c != BACKSLASH {
      buffer' := AddToBuffer(buffer', c);
    } else {
      c := s.Getc();
      if c == EOF {
        return false, c, buffer';
      }
      buffer' := StoreEscaped(buffer', c);
    }
    c := s.Getc();
    ok := c != EOF;
  }

  /** `parseString` (aJSON.cpp:195-283), as written, on the stream. */
  method ParseString(s: Stream) returns (r: int, str: bytes)
    requires s.Valid()
    modifies s`pos
    ensures s.Valid()
    ensures r == 0 || r == EOF
    ensures r == 0 <==> ParseStringF(s.input, old(s.pos), AsWritten).Success?
    ensures r == 0 ==> ParseStringF(s.input, old(s.pos), AsWritten).value == (str, s.pos)
  {
    var p0 := s.pos;
    str := [];
    var c := s.Getc();
    if c != QUOTE {
      return EOF, [];
    }
    c := s.Getc();
    if c == EOF {
      return EOF, [];
    }
    // The outer `while (in != EOF)` of the source runs its body once: the
    // body always returns.
    var buffer: bytes := [];
    while c != QUOTE && c > 31
      invariant s.Valid() && 0 < s.pos && c == s.input[s.pos - 1]
      invariant ParseStringF(s.input, p0, AsWritten) == StringBody(s.input, s.pos - 1, buffer, AsWritten)
      decreases |s.input| - s.pos
    {
      var ok;
      ok, c, buffer := StringStep(s, c, buffer);
      if !ok {
        return EOF, [];
      }
    }
    // The terminating 0 the source appends is the end of a C string; the
    // model's string is the bytes before it.
    return 0, buffer;
  }
}
