/** Shared vocabulary of the aJson model: bytes as the stream delivers them,
    the byte values the lexer tests for, node kinds and parsed values. */
module Common {

  /** A byte as `fgetc` returns it when it does not return EOF. */
  type byte = x: int | 0 <= x < 256

  type bytes = seq<byte>

  /** The `unsigned char` the source uses for indices and counts. */
  type uint8 = x: int | 0 <= x < 256

  /** `EOF`, the only value besides a byte that `fgetc` returns, and the
      failure code of every parse routine. */
  const EOF: int := -1

  const SPACE: byte := 0x20
  const QUOTE: byte := 0x22       // "
  const BACKSLASH: byte := 0x5C   // \
  const COMMA: byte := 0x2C       // ,
  const COLON: byte := 0x3A       // :
  const MINUS: byte := 0x2D       // -
  const PLUS: byte := 0x2B        // +
  const DOT: byte := 0x2E         // .
  const LBRACKET: byte := 0x5B    // [
  const RBRACKET: byte := 0x5D    // ]
  const LBRACE: byte := 0x7B      // {
  const RBRACE: byte := 0x7D      // }
  const ZERO: byte := 0x30        // 0
  const NINE: byte := 0x39        // 9
  const LOWER_E: byte := 0x65     // e
  const UPPER_E: byte := 0x45     // E
  const LOWER_N: byte := 0x6E     // n
  const LOWER_T: byte := 0x74     // t
  const LOWER_F: byte := 0x66     // f

  // The five control bytes with a one-letter escape, and their letters.
  const BS: byte := 0x08          // \b
  const FF: byte := 0x0C          // \f
  const LF: byte := 0x0A          // \n
  const CR: byte := 0x0D          // \r
  const TAB: byte := 0x09         // \t
  const LOWER_B: byte := 0x62     // b
  const LOWER_R: byte := 0x72     // r

  const NULL_TEXT: bytes := [0x6E, 0x75, 0x6C, 0x6C]         // null
  const TRUE_TEXT: bytes := [0x74, 0x72, 0x75, 0x65]         // true
  const FALSE_TEXT: bytes := [0x66, 0x61, 0x6C, 0x73, 0x65]  // false

  predicate IsDigit(c: int) { ZERO as int <= c <= NINE as int }

  /** Which reading of the parser a specification function gives: the code
      as written, or the code with its evident defects corrected (see the
      Findings of README.md). */
  datatype Dialect = AsWritten | Intended

  datatype Option<+T> = None | Some(value: T)

  datatype Result<+T> = Failure | Success(value: T)

  /** The type tag of an aJsonObject; the reference flag is kept apart. */
  datatype Kind = Null | False | True | Int | Float | String | Array | Object

  /** A parsed JSON value. The parser only ever links freshly allocated
      nodes, so the tree it builds has no sharing and a value describes it
      exactly. The floating-point value of a Float node is not modelled. */
  datatype Json =
    | JNull
    | JFalse
    | JTrue
    | JInt(i: int)
    | JFloat
    | JString(s: bytes)
    | JArray(items: seq<Json>)
    | JObject(members: seq<Member>)

  /** An object member: the name parsed into `name` and the value parsed into
      the same node. */
  datatype Member = Member(name: bytes, value: Json)

  /** Moving the first element of `xs` to the end of `acc`. */
  lemma {:induction false} Shift<T>(acc: seq<T>, xs: seq<T>)
    requires xs != []
    ensures [xs[0]] + xs[1..] == xs
    ensures acc + [xs[0]] + xs[1..] == acc + xs
    ensures xs[1..] == [] ==> acc + [xs[0]] == acc + xs
  {
    assert xs == [xs[0]] + xs[1..];
    if xs[1..] == [] {
      assert acc + [xs[0]] + xs[1..] == acc + [xs[0]];
    }
  }

  /** A prefix grows by the element after it. */
  lemma {:induction false} TakeNext<T>(s: seq<T>, k: nat)
    requires k < |s|
    ensures s[..k] + [s[k]] == s[..k + 1]
  {
  }

  /** Concatenation regroups. */
  lemma {:induction false} AppendAssoc<T>(a: seq<T>, b: seq<T>, c: seq<T>)
    ensures (a + b) + c == a + (b + c)
  {
  }
}
