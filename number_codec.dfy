/** The number codec: `parseNumber` reads an optional minus sign and a run
    of digits, and makes an Int unless a `.`, `e` or `E` follows, in which
    case it goes on reading a fraction and an exponent and makes a Float.
    `printInt` renders an Int in decimal. */
module NumberCodec {
  import opened Common
  import opened Cursor

  predicate AllDigits(ds: bytes)
  {
    forall i :: 0 <= i < |ds| ==> IsDigit(ds[i])
  }

  /** The value the accumulation `i = i * 10 + (in - '0')` reaches over a run
      of digits. */
  function DecimalValue(ds: bytes): nat
    requires AllDigits(ds)
    decreases |ds|
  {
    if ds == [] then 0 else DecimalValue(ds[..|ds| - 1]) * 10 + (ds[|ds| - 1] - ZERO)
  }

  /** The end of the run of digits that starts at `p`. */
  function DigitRunEnd(inp: bytes, p: nat): (q: nat)
    requires p <= |inp|
    ensures p <= q <= |inp|
    ensures AllDigits(inp[p..q])
    ensures q < |inp| ==> !IsDigit(inp[q])
    decreases |inp| - p
  {
    if p < |inp| && IsDigit(inp[p]) then
      var q := DigitRunEnd(inp, p + 1);
      assert inp[p..q] == [inp[p]] + inp[p + 1..q];
      q
    else p
  }

  predicate IsFloatMark(c: int)
  {
    c == DOT || c == LOWER_E || c == UPPER_E
  }

  /** Where the exponent part of the float path (aJSON.cpp:133-150) makes
      its last read, when its first read is at `x`: an optional sign, then
      digits up to the first byte that is not one. */
  function ExponentLastRead(inp: bytes, x: nat): (z: nat)
    requires x <= |inp|
    ensures x <= z <= |inp|
  {
    var y := if x < |inp| && (inp[x] == PLUS || inp[x] == MINUS) then x + 1 else x;
    DigitRunEnd(inp, y)
  }

  /** Where the float path (aJSON.cpp:120-150) makes its last read when the
      byte at `e`, just after the integer digits, is `.`, `e` or `E`. After
      `.` one byte is read and taken as a digit unchecked, then digits
      follow; an exponent letter after them starts the exponent part. */
  function FloatLastRead(inp: bytes, e: nat): (last: nat)
    requires e < |inp| && IsFloatMark(inp[e])
    ensures e < last <= |inp|
  {
    if inp[e] == DOT then
      var r1 := DigitRunEnd(inp, Next(inp, e + 1));
      if Peek(inp, r1) == LOWER_E || Peek(inp, r1) == UPPER_E
      then ExponentLastRead(inp, Next(inp, r1))
      else r1
    else ExponentLastRead(inp, e + 1)
  }

  /** The position of the last byte `parseNumber` reads when the digits of
      the integer part start at `p1` (the end of the input if that read
      returned EOF). On the integer path that byte is the one after the
      digits. */
  function NumberLastRead(inp: bytes, p1: nat): (last: nat)
    requires p1 <= |inp|
    ensures DigitRunEnd(inp, p1) <= last <= |inp|
  {
    var e := DigitRunEnd(inp, p1);
    if !IsFloatMark(Peek(inp, e)) then e else FloatLastRead(inp, e)
  }

  /** `parseNumber` (aJSON.cpp:79-159) from position `p`. As written, the
      last byte read is consumed, not pushed back; the intended codec leaves
      the cursor on it. The value of a Float is not modelled. */
  function ParseNumberF(inp: bytes, p: nat, d: Dialect): (r: Result<(Json, nat)>)
    requires p <= |inp|
    ensures r.Success? ==> p <= r.value.1 <= |inp|
    ensures r.Success? ==> p < |inp| && ((d == AsWritten || inp[p] == MINUS || IsDigit(inp[p])) ==> p < r.value.1)
    ensures r.Failure? <==> p == |inp| || (inp[p] == MINUS && p + 1 == |inp|)
  {
    if p >= |inp| then Failure
    else
      var neg := inp[p] == MINUS;
      var p1 := if neg then p + 1 else p;
      if p1 >= |inp| && neg then Failure
      else
        var e := DigitRunEnd(inp, p1);
        var last := NumberLastRead(inp, p1);
        var stop := if d == AsWritten then Next(inp, last) else last;
        if !IsFloatMark(Peek(inp, e)) then
          var i: int := DecimalValue(inp[p1..e]);
          Success((JInt(if neg then -i else i), stop))
        else Success((JFloat, stop))
  }

  /** The integer path: after an optional `-` and the digits, a byte other
      than `.`, `e` or `E` (or the end of the input) gives an Int whose value
      is the sign times the digits' decimal value; the cursor is one past
      that byte as written, on it as intended. */
  lemma {:induction false} IntegerPath(inp: bytes, p: nat, d: Dialect)
    requires p < |inp| && (inp[p] == MINUS ==> p + 1 < |inp|)
    requires var p1 := if inp[p] == MINUS then p + 1 else p;
             !IsFloatMark(Peek(inp, DigitRunEnd(inp, p1)))
    ensures var p1 := if inp[p] == MINUS then p + 1 else p;
            var e := DigitRunEnd(inp, p1);
            var v: int := DecimalValue(inp[p1..e]);
            ParseNumberF(inp, p, d)
              == Success((JInt(if inp[p] == MINUS then -v else v),
                          if d == AsWritten then Next(inp, e) else e))
  {
    var p1 := if inp[p] == MINUS then p + 1 else p;
    var e := DigitRunEnd(inp, p1);
    assert NumberLastRead(inp, p1) == e;
  }

  /** The digits `printInt` writes for a natural number. */
  function Digits(n: nat): (ds: bytes)
    ensures |ds| >= 1 && AllDigits(ds)
    decreases n
  {
    if n >= 10 then Digits(n / 10) + [(ZERO + n % 10) as byte] else [(ZERO + n % 10) as byte]
  }

  /** `printInt` (aJSON.cpp:162-171): `%d` of the value, a minus sign and
      the digits of the magnitude, without leading zeros. */
  function IntToDecimal(n: int): (text: bytes)
    ensures |text| >= 1
  {
    if n < 0 then [MINUS] + Digits(-n) else Digits(n)
  }

  /** Reading back the digits of `n` gives `n`. */
  lemma {:induction false} DigitsValue(n: nat)
    ensures DecimalValue(Digits(n)) == n
    decreases n
  {
    var ds := Digits(n);
    var last := (ZERO + n % 10) as byte;
    assert ds[|ds| - 1] == last;
    if n >= 10 {
      assert ds[..|ds| - 1] == Digits(n / 10);
      DigitsValue(n / 10);
    } else {
      assert ds[..|ds| - 1] == [];
    }
    assert (n / 10) * 10 + n % 10 == n;
  }

  /** Digit text of `n` standing at `q` and ending at `e` is one digit
      run, and it reads back as `n`. */
  lemma {:induction false} DigitsRun(inp: bytes, q: nat, e: nat, n: nat)
    requires At(inp, q, Digits(n)) && e == q + |Digits(n)|
    requires e < |inp| ==> !IsDigit(inp[e])
    ensures e <= |inp| && DigitRunEnd(inp, q) == e
    ensures AllDigits(inp[q..e]) && DecimalValue(inp[q..e]) == n
  {
    AtSlice(inp, q, Digits(n));
    DigitRunEndUnique(inp, q, e);
    DigitsValue(n);
  }

  /** The three characterising facts determine `DigitRunEnd`. */
  lemma {:induction false} DigitRunEndUnique(inp: bytes, p: nat, q: nat)
    requires p <= q <= |inp|
    requires AllDigits(inp[p..q])
    requires q < |inp| ==> !IsDigit(inp[q])
    ensures DigitRunEnd(inp, p) == q
    decreases q - p
  {
    if p < q {
      assert inp[p] == inp[p..q][0];
      assert inp[p + 1..q] == inp[p..q][1..];
      DigitRunEndUnique(inp, p + 1, q);
    }
  }

  /** Where the sign and the digits of printed integer text stand. */
  lemma {:induction false} SignAndDigits(inp: bytes, p: nat, n: int)
    requires At(inp, p, IntToDecimal(n))
    ensures var m: nat := if n < 0 then -n else n;
            var p1 := if n < 0 then p + 1 else p;
            p < |inp| && (inp[p] == MINUS <==> n < 0) && At(inp, p1, Digits(m)) &&
            p1 + |Digits(m)| == p + |IntToDecimal(n)|
  {
    var m: nat := if n < 0 then -n else n;
    if n < 0 {
      AtSplit(inp, p, [MINUS], Digits(m));
      AtIndex(inp, p, [MINUS], 0);
    } else {
      AtIndex(inp, p, Digits(m), 0);
    }
  }

  /** The integer path read off the digit run that ends at `e`. */
  lemma {:induction false} IntegerRead(inp: bytes, p: nat, d: Dialect, p1: nat, e: nat, m: nat, n: int)
    requires p < |inp| && p1 == (if inp[p] == MINUS then p + 1 else p)
    requires p1 <= e <= |inp| && DigitRunEnd(inp, p1) == e && !IsFloatMark(Peek(inp, e))
    requires inp[p] == MINUS ==> p1 < |inp|
    requires DecimalValue(inp[p1..e]) == m
    requires n == if inp[p] == MINUS then -(m as int) else m
    ensures ParseNumberF(inp, p, d) == Success((JInt(n), if d == AsWritten then Next(inp, e) else e))
  {
    IntegerPath(inp, p, d);
  }

  /** Parsing what `printInt` writes gives the integer back, provided the
      byte after it cannot continue a number. */
  lemma {:induction false} NumberRoundTrip(inp: bytes, p: nat, n: int, d: Dialect)
    requires At(inp, p, IntToDecimal(n))
    requires var e := p + |IntToDecimal(n)|;
             e < |inp| ==> !IsDigit(inp[e]) && !IsFloatMark(inp[e])
    ensures var e := p + |IntToDecimal(n)|;
            ParseNumberF(inp, p, d) == Success((JInt(n), if d == AsWritten then Next(inp, e) else e))
  {
    var m: nat := if n < 0 then -n else n;
    var p1 := if n < 0 then p + 1 else p;
    var e := p + |IntToDecimal(n)|;
    SignAndDigits(inp, p, n);
    DigitsRun(inp, p1, e, m);
    IntegerRead(inp, p, d, p1, e, m, n);
  }

  /** As written, the byte after an integer is consumed: in `1,` the comma
      is gone; the intended codec leaves the cursor on it. */
  lemma {:induction false} IntegerSwallowsNextByte()
    ensures ParseNumberF([0x31, COMMA], 0, AsWritten) == Success((JInt(1), 2))
    ensures ParseNumberF([0x31, COMMA], 0, Intended) == Success((JInt(1), 1))
  {
    var inp: bytes := [0x31, COMMA];
    assert DigitRunEnd(inp, 1) == 1;
    assert DigitRunEnd(inp, 0) == 1;
    assert inp[0..1] == [0x31];
    assert DecimalValue([0x31]) == DecimalValue([]) * 10 + 1;
    IntegerPath(inp, 0, AsWritten);
    IntegerPath(inp, 0, Intended);
  }

  /** The digit loop of `parseNumber` (aJSON.cpp:104-110, 140-144): reads
      while the last byte read is a digit, accumulating `i * 10 + digit`. */
  method ScanDigits(s: Stream, c0: int, ghost q0: nat) returns (c: int, ghost q: nat, i: nat)
    requires ReadAt(s, c0, q0)
    modifies s`pos
    ensures ReadAt(s, c, q)
    ensures q == DigitRunEnd(s.input, q0)
    ensures i == DecimalValue(s.input[q0..q])
  {
    c, q, i := c0, q0, 0;
    while IsDigit(c)
      invariant ReadAt(s, c, q) && q0 <= q
      invariant AllDigits(s.input[q0..q])
      invariant DigitRunEnd(s.input, q0) == DigitRunEnd(s.input, q)
      invariant i == DecimalValue(s.input[q0..q])
      decreases |s.input| - q
    {
      ghost var run := s.input[q0..q];
      i := i * 10 + (c - ZERO);
      assert s.input[q0..q + 1] == run + [c as byte];
      assert (run + [c as byte])[..|run|] == run;
      c := s.Getc();
      q := q + 1;
    }
  }

  /** The exponent part (aJSON.cpp:133-150), entered with the exponent
      letter just read at `r`: an optional sign, then digits. */
  method ScanExponent(s: Stream, ghost r: nat) returns (c: int, ghost q: nat)
    requires r < |s.input| && ReadAt(s, s.input[r], r)
    modifies s`pos
    ensures ReadAt(s, c, q) && q == ExponentLastRead(s.input, r + 1)
  {
    c := s.Getc();
    q := r + 1;
    if c == PLUS {
      c := s.Getc();
      q := q + 1;
    } else if c == MINUS {
      c := s.Getc();
      q := q + 1;
    }
    var digits;
    c, q, digits := ScanDigits(s, c, q);
  }

  /** The float path's reads (aJSON.cpp:115-151), entered with the `.`, `e`
      or `E` just read at `e`. The value of the Float is not modelled. */
  method ScanFloatTail(s: Stream, c0: int, ghost e: nat) returns (c: int, ghost q: nat)
    requires ReadAt(s, c0, e) && IsFloatMark(c0)
    modifies s`pos
    ensures ReadAt(s, c, q) && q == FloatLastRead(s.input, e)
  {
    c := c0;
    q := e;
    if c == DOT {
      c := s.Getc();
      c := s.Getc();
      q := Next(s.input, e + 1);
      var digits;
      c, q, digits := ScanDigits(s, c, q);
    }
    if c == LOWER_E || c == UPPER_E {
      c, q := ScanExponent(s, q);
    }
  }

  /** `parseNumber` as written, on the stream. */
  method ParseNumber(s: Stream) returns (r: int, v: Json)
    requires s.Valid()
    modifies s`pos
    ensures s.Valid()
    ensures r == 0 || r == EOF
    ensures r == 0 <==> ParseNumberF(s.input, old(s.pos), AsWritten).Success?
    ensures r == 0 ==> ParseNumberF(s.input, old(s.pos), AsWritten).value == (v, s.pos)
  {
    v := JNull;
    var c := s.Getc();
    if c == EOF {
      return EOF, v;
    }
    ghost var q := s.pos - 1;
    var neg := false;
    if c == MINUS {
      neg := true;
      c := s.Getc();
      if c == EOF {
        return EOF, v;
      }
      q := q + 1;
    }
    ghost var p1 := q;
    var i: int;
    c, q, i := ScanDigits(s, c, q);
    if !IsFloatMark(c) {
      v := JInt(if neg then -i else i);
    } else {
      c, q := ScanFloatTail(s, c, q);
      v := JFloat;
    }
    return 0, v;
  }
}
