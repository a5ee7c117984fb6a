/** The stream cursor: the `FILE*` the parser reads becomes an input byte
    sequence and a read position. `fgetc` reads the byte at the position and
    advances; at the end it returns EOF and stays put. `ungetc` of the byte
    just read steps back. */
module Cursor {
  import opened Common

  /** What `fgetc` returns at position `p`. */
  function Peek(inp: bytes, p: nat): (c: int)
    ensures c == EOF <==> p >= |inp|
    ensures p < |inp| ==> c == inp[p]
  {
    if p < |inp| then inp[p] else EOF
  }

  /** The position after one `fgetc` at `p`. */
  function Next(inp: bytes, p: nat): nat
  {
    if p < |inp| then p + 1 else p
  }

  /** Where `skip` leaves the cursor: the first byte above 32 at or after
      `p`, or the end of the input. */
  function SkipTo(inp: bytes, p: nat): (q: nat)
    requires p <= |inp|
    ensures p <= q <= |inp|
    ensures q < |inp| ==> inp[q] > SPACE
    decreases |inp| - p
  {
    if p == |inp| || inp[p] > SPACE then p else SkipTo(inp, p + 1)
  }

  /** Every byte `SkipTo` passes over is at most 32. */
  lemma {:induction false} SkipToBlanks(inp: bytes, p: nat)
    requires p <= |inp|
    ensures forall k :: p <= k < SkipTo(inp, p) ==> inp[k] <= SPACE
    decreases |inp| - p
  {
    if p < |inp| && inp[p] <= SPACE {
      SkipToBlanks(inp, p + 1);
    }
  }

  /** Skipping from a significant byte does not move. */
  lemma {:induction false} SkipToSignificant(inp: bytes, p: nat)
    requires p < |inp| && inp[p] > SPACE
    ensures SkipTo(inp, p) == p
  {
  }

  /** The three characterising facts determine `SkipTo`. */
  lemma {:induction false} SkipToUnique(inp: bytes, p: nat, q: nat)
    requires p <= q <= |inp|
    requires forall k :: p <= k < q ==> inp[k] <= SPACE
    requires q < |inp| ==> inp[q] > SPACE
    ensures SkipTo(inp, p) == q
    decreases q - p
  {
    if p < q {
      SkipToUnique(inp, p + 1, q);
    }
  }

  /** Skipping twice is skipping once. */
  lemma {:induction false} SkipToIdempotent(inp: bytes, p: nat)
    requires p <= |inp|
    ensures SkipTo(inp, SkipTo(inp, p)) == SkipTo(inp, p)
  {
  }

  /** Position `i` of a text that starts at `q`. */
  function Off(q: nat, i: nat): nat
  {
    q + i
  }

  /** The bytes `t` stand in the input from position `q` on. */
  predicate At(inp: bytes, q: nat, t: bytes)
  {
    q + |t| <= |inp| && forall i {:trigger inp[Off(q, i)]} | 0 <= i < |t| :: inp[Off(q, i)] == t[i]
  }

  /** A byte of text standing at `q`. */
  lemma {:induction false} AtIndex(inp: bytes, q: nat, t: bytes, i: nat)
    requires At(inp, q, t) && i < |t|
    ensures q + i < |inp| && inp[q + i] == t[i]
  {
    assert inp[Off(q, i)] == t[i];
  }

  /** Text stands at `q` when each of its bytes does. */
  lemma {:induction false} AtBytes(inp: bytes, q: nat, t: bytes)
    requires q + |t| <= |inp|
    requires forall i | 0 <= i < |t| :: inp[q + i] == t[i]
    ensures At(inp, q, t)
  {
    forall i | 0 <= i < |t|
      ensures inp[Off(q, i)] == t[i]
    {
      assert inp[q + i] == t[i];
    }
  }

  /** Text standing at `q` splits into its two parts. */
  lemma {:induction false} AtSplit(inp: bytes, q: nat, a: bytes, b: bytes)
    requires At(inp, q, a + b)
    ensures At(inp, q, a) && At(inp, q + |a|, b)
  {
    forall i | 0 <= i < |a|
      ensures inp[Off(q, i)] == a[i]
    {
      assert inp[Off(q, i)] == (a + b)[i];
    }
    forall i | 0 <= i < |b|
      ensures inp[Off(q + |a|, i)] == b[i]
    {
      assert Off(q + |a|, i) == Off(q, |a| + i);
      assert inp[Off(q, |a| + i)] == (a + b)[|a| + i];
    }
  }

  /** The text standing at `q` is the slice of the input there. */
  lemma {:induction false} AtSlice(inp: bytes, q: nat, t: bytes)
    requires At(inp, q, t)
    ensures inp[q..q + |t|] == t
  {
    forall i | 0 <= i < |t|
      ensures inp[q..q + |t|][i] == t[i]
    {
      AtIndex(inp, q, t, i);
    }
  }

  /** The stream: fixed input and a position that reads advance. */
  class Stream {
    const input: bytes
    var pos: nat

    ghost predicate Valid()
      reads this
    {
      pos <= |input|
    }

    constructor (input: bytes)
      ensures this.input == input && pos == 0 && Valid()
    {
      this.input := input;
      pos := 0;
    }

    /** `fgetc`. */
    method Getc() returns (c: int)
      requires Valid()
      modifies this`pos
      ensures Valid()
      ensures c == Peek(input, old(pos)) && pos == Next(input, old(pos))
    {
      if pos < |input| {
        c := input[pos];
        pos := pos + 1;
      } else {
        c := EOF;
      }
    }

    /** `ungetc` of the byte the last `fgetc` returned: EOF cannot be pushed
        back, any byte can. */
    method Ungetc(c: int) returns (r: int)
      requires Valid()
      requires c != EOF ==> 0 < pos && input[pos - 1] == c
      modifies this`pos
      ensures Valid()
      ensures c == EOF ==> r == EOF && pos == old(pos)
      ensures c != EOF ==> r == c && pos == old(pos) - 1
    {
      if c == EOF {
        r := EOF;
      } else {
        r := c;
        pos := pos - 1;
      }
    }

    /** `fread` of `n` single bytes: reads what is left, up to `n`. */
    method Fread(n: nat) returns (buf: bytes)
      requires Valid()
      modifies this`pos
      ensures Valid()
      ensures pos == if old(pos) + n <= |input| then old(pos) + n else |input|
      ensures buf == input[old(pos)..pos]
    {
      var k := 0;
      buf := [];
      while k < n && pos < |input|
        invariant Valid() && old(pos) <= pos
        invariant k == pos - old(pos) <= n
        invariant buf == input[old(pos)..pos]
      {
        buf := buf + [input[pos]];
        pos := pos + 1;
        k := k + 1;
      }
    }
  }

  /** The last `fgetc` on `s` was at `q` and returned `c`: the byte there, or
      EOF when `q` is the end of the input. */
  ghost predicate ReadAt(s: Stream, c: int, q: nat)
    reads s
  {
    s.Valid() && q <= |s.input| && c == Peek(s.input, q) && s.pos == Next(s.input, q)
  }

  /** `skip` (aJSON.cpp:360-380): consumes bytes up to 32 and pushes back the
      first byte above 32; EOF on a null stream or when the input ends. */
  method Skip(s: Stream?) returns (r: int)
    requires s != null ==> s.Valid()
    modifies s
    ensures s == null ==> r == EOF
    ensures s != null ==> s.Valid() && s.pos == SkipTo(s.input, old(s.pos))
    ensures s != null ==> (r == 0 <==> s.pos < |s.input|)
    ensures r == 0 || r == EOF
  {
    if s == null {
      return EOF;
    }
    var c := s.Getc();
    while c != EOF && c <= SPACE
      invariant s.Valid() && old(s.pos) <= s.pos
      invariant c != EOF ==> 0 < s.pos && s.input[s.pos - 1] == c
      invariant c != EOF ==> SkipTo(s.input, old(s.pos)) == SkipTo(s.input, s.pos - 1)
      invariant c == EOF ==> s.pos == |s.input| && SkipTo(s.input, old(s.pos)) == |s.input|
      decreases |s.input| - s.pos, if c == EOF then 0 else 1
    {
      c := s.Getc();
    }
    if c != EOF {
      var u := s.Ungetc(c);
      if u == EOF {
        return EOF;
      }
      return 0;
    }
    return EOF;
  }
}
