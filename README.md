# aJson core, modelled in Dafny

aJson is a small JSON engine for microcontrollers, descended from cJSON. A
JSON value is an `aJsonObject` node with a type tag, an optional name, a
value union and a chain of children linked through `next`/`prev`. Text is
read from a `FILE*` byte by byte with `fgetc`, `ungetc` and `fread`. This
project models the core of `aJSON.cpp`:

- the whitespace skipper `skip`;
- the recursive-descent parser: `parseValue` (one-byte lookahead dispatch and
  the `null`/`true`/`false` literals), `parseString` with its buffer helper
  `addToBuffer`, the integer path of `parseNumber` (the float path's reads,
  not its value), `parseArray`, `parseObject` and `parse(stream, filter)`;
- the string printer `printStringPtr`, with its counting loop and write loop;
- the node API: `getArraySize`, `getArrayItem`, `getObjectItem`, the
  `addItem*`, `detachItem*`, `deleteItem*` and `replaceItem*` operations,
  `createReference`, `deleteItem`, the `create*` constructors, the
  `create*Array` builders and the `add*ToObject` shorthands.

Layout:

- `common.dfy` (`Common`) holds bytes, the byte constants the code
  compares with, `Option`/`Result`, the parsed value `Json`, and `Dialect`.
- `cursor.dfy` (`Cursor`) holds the stream as the class `Stream`: a fixed
  input `seq` and a position that `Getc` advances and `Ungetc` moves back.
  It also holds the pure cursor functions `Peek`, `Next`, `SkipTo` and the
  predicate `At(inp, q, t)` ("text `t` stands at position `q`"), plus the
  method `Skip`.
- `string_codec.dfy`, `number_codec.dfy` and `parser.dfy` each give a pure
  specification function per parser (`ParseStringF`, `ParseNumberF`,
  `ParseValueF`, `ParseArrayF`, `ParseObjectF`). Each function returns the
  value and the position the stream is left at. The imperative methods
  (`ParseString`, `ParseNumber`, `ParseValue`, `ParseArray`, `ParseObject`,
  `ParseStream`) follow the code statement by statement on a `Stream`. Each
  is proved to succeed exactly when its function does, with the same value
  and end position.
- Every specification function takes a `Dialect`:
  - `AsWritten` follows the code as it stands, with one exception: it
    stores string bytes through the appending `addToBuffer`. That is the
    behaviour of the code when the pointer comparison at aJSON.cpp:1170
    takes its growing branch. The other outcome is modelled on its own
    (see "## Findings"). The methods are proved against this dialect.
  - `Intended` is the same code with the defects under "## Findings"
    corrected. This includes the two further defects of the member loop of
    `parseObject` that the row for aJSON.cpp:724-755 names. The properties
    the source evidently aims at are proved about this dialect.
- `roundtrip.dfy` (`RoundTrip`) holds a reference printer, `Serialize`. It
  writes strings as `printStringPtr` does, integers as `printInt`'s `%d`
  does, and arrays and objects the standard JSON way. It proves that the
  intended parser reads every printable value back and stops right after
  its text.
- `tree.dfy` (`Tree`) models the node API on the class `Item`. A
  container's child chain is the field `children: seq<Item>`. A node's place
  in that sequence stands for its `next`/`prev` links. `deleteItem` is a
  method that returns, in order, the nodes it frees and the nodes whose
  string it frees.

## Model

| member | source | states |
|---|---|---|
| Cursor.SkipTo | aJSON.cpp:359-380 | the resting place of `skip` lies at or after the start; the byte there, if any, is above 32 |
| Cursor.SkipToBlanks | aJSON.cpp:366-370 | every byte `skip` passes over is at most 32 |
| Cursor.SkipToUnique | aJSON.cpp:359-380 | a position that follows only bytes up to 32 and stands on a byte above 32 (or the end) is where `skip` stops |
| Cursor.SkipToIdempotent | aJSON.cpp:359-380 | skipping twice leaves the cursor where skipping once does |
| Cursor.Stream.Getc | aJSON.cpp:85 | `fgetc` returns the byte at the cursor and advances, or returns EOF at the end and stays |
| Cursor.Stream.Ungetc | aJSON.cpp:373 | pushing back the byte just read moves the cursor back one; pushing back EOF fails and changes nothing |
| Cursor.Stream.Fread | aJSON.cpp:467 | `fread` returns the next `n` bytes, or fewer at the end, and advances past them |
| Cursor.Skip | aJSON.cpp:359-380 | null stream gives EOF; otherwise the cursor ends at `SkipTo`, and the result is 0 exactly when a byte above 32 remains |
| StringCodec.EscapeLength | aJSON.cpp:293-303 | the escaped body never outgrows the counted length, and fills it exactly when no control byte without a letter escape is present |
| StringCodec.EscapedLength | aJSON.cpp:295-301 | the counting loop gives the string length plus one for each byte below 32, quote or backslash |
| StringCodec.WriteEscaped | aJSON.cpp:312-343 | one byte written as itself, as backslash and its letter, or dropped with the backslash taken back |
| StringCodec.WriteQuoted | aJSON.cpp:307-347 | the buffer holds a quote, the escape of every byte in order, a quote and 0 |
| StringCodec.PrintStringPtr | aJSON.cpp:286-349 | a null string gives the empty C string; otherwise the buffer has `len + 3` bytes and begins with the quoted escaped string and 0 |
| StringCodec.EscapeAppend | aJSON.cpp:307-347 | escaping a concatenation escapes each part |
| StringCodec.Unescaped | aJSON.cpp:234-259 | `\b \f \n \r \t` decode to their control bytes; as written a quote or a backslash after `\` is dropped, as intended kept |
| StringCodec.AddToBuffer | aJSON.cpp:1166-1184 | the byte is stored after the bytes already stored, which are kept |
| StringCodec.AddToBufferAsWritten | aJSON.cpp:1170-1183 | the byte is stored only when the pointer comparison takes the growing branch, and is lost otherwise |
| StringCodec.StoreAllLosesEverything | aJSON.cpp:1170 | with the comparison false every string is stored as nothing; with it true every byte is kept |
| StringCodec.StringBody | aJSON.cpp:219-280 | the string loop ends past a terminator and inside the input |
| StringCodec.ParseStringF | aJSON.cpp:195-283 | success needs an opening quote and another byte, and ends right after a quote or a byte up to 31 |
| StringCodec.WellFormedBody | aJSON.cpp:221-266 | (definition) the bytes the string loop passes over: plain bytes above 31 other than quote and backslash, and backslash pairs |
| StringCodec.StringBodySpec | aJSON.cpp:219-280 | the string loop succeeds with `s` ending at `e` exactly when the bytes before `e - 1` form a body, the byte at `e - 1` is a quote or up to 31, and `s` is the stored prefix plus the decoded body |
| StringCodec.ParseStringSpec | aJSON.cpp:195-283 | `parseString` succeeds with `s` ending at `e` exactly when an opening quote is followed by a body and a terminator at `e - 1`, and `s` is the decoded body: it stops at the first terminator not escaped by a backslash |
| StringCodec.StringStep | aJSON.cpp:223-266 | one turn of the loop keeps the string loop's outcome, or hits EOF exactly where the string loop fails |
| StringCodec.StringBodyEnds | aJSON.cpp:221-280 | the string loop stops only on a quote or a byte up to 31 |
| StringCodec.UnescapeEscape | aJSON.cpp:234-259 | decoding the two-byte escape of a surviving byte gives that byte back |
| StringCodec.StringBodyDecodes | aJSON.cpp:219-280 | the string loop decodes an escaped body followed by a quote to the original bytes and stops after the quote |
| StringCodec.StringRoundTrip | aJSON.cpp:195-283 | parsing what `printStringPtr` writes gives the string back, and stops right after the closing quote |
| StringCodec.EscapedQuoteIsDropped | aJSON.cpp:234-259 | `"\""` parses to the empty string as written, and to a quote as intended |
| StringCodec.StoreEscaped | aJSON.cpp:234-259 | the escape `switch` stores the decoded byte of a letter and nothing otherwise |
| StringCodec.ParseString | aJSON.cpp:195-283 | the stream method succeeds exactly when `ParseStringF` does, with the same string and end position |
| NumberCodec.DigitRunEnd | aJSON.cpp:104-110 | the digit loop stops at the first byte that is not a digit, and everything before it is a digit |
| NumberCodec.ParseNumberF | aJSON.cpp:79-159 | failure exactly at the end of input or on a lone `-`; success ends inside the input and past the start |
| NumberCodec.IntegerPath | aJSON.cpp:93-115 | after an optional `-` and digits, a byte other than `.`, `e`, `E` gives Int of sign times the digits' decimal value; as written the cursor ends one past that byte |
| NumberCodec.DigitsValue | aJSON.cpp:162-171 | reading back the decimal digits of `n` gives `n` |
| NumberCodec.DigitRunEndUnique | aJSON.cpp:104-110 | a run of digits followed by a non-digit is where the digit loop stops |
| NumberCodec.NumberRoundTrip | aJSON.cpp:79-159 | parsing what `printInt` writes gives the integer back when the following byte cannot continue a number |
| NumberCodec.IntegerSwallowsNextByte | aJSON.cpp:104-115 | in `1,` the comma is consumed as written and left as intended |
| NumberCodec.ScanDigits | aJSON.cpp:104-110 | the digit loop ends at `DigitRunEnd` with the accumulated decimal value |
| NumberCodec.ScanExponent | aJSON.cpp:133-150 | the exponent part reads an optional sign and then digits |
| NumberCodec.ScanFloatTail | aJSON.cpp:115-151 | the float path reads the fraction and exponent as `FloatLastRead` says |
| NumberCodec.ParseNumber | aJSON.cpp:79-159 | the stream method succeeds exactly when `ParseNumberF` does, with the same value and end position |
| Parser.Literal | aJSON.cpp:462-514 | a literal succeeds exactly when its full text stands at the cursor, and then ends right after it |
| Parser.ParseValueF | aJSON.cpp:423-515 | nothing left after skipping fails; at `n`, `f` or `t` the result is exactly the literal test for `null`, `false` or `true`; success only at a quote, `-`, a digit, `[`, `{`, `n`, `f` or `t`; a success ends past its start and within the input |
| Parser.ParseArrayF | aJSON.cpp:558-611 | a successful array ends past its start and within the input |
| Parser.ArrayTail | aJSON.cpp:591-610 | the element loop ends within the input |
| Parser.ParseObjectF | aJSON.cpp:683-767 | a successful object ends past its start and within the input |
| Parser.MemberF | aJSON.cpp:702-721 | a member is a string, `:` and a value, and ends past its start |
| Parser.ObjectAsWritten | aJSON.cpp:692-767 | the rest of `parseObject` as written ends past its start |
| Parser.ObjectMembers | aJSON.cpp:722-767 | the intended member loop ends past its start |
| Parser.Parse | aJSON.cpp:395-413 | `parse` returns a value exactly when the intended `parse` returns a node |
| Parser.ReturnsNode | aJSON.cpp:406-412 | whether `parse` returns a node: as written exactly when `parseValue` fails, as intended exactly when it succeeds; input with nothing above a space gives a node as written and NULL as intended |
| Parser.ReturnsNodeInverted | aJSON.cpp:406-412 | as written `null` gives NULL and unparsable text gives a node |
| Parser.AtMostOneMember | aJSON.cpp:724-755 | an object as written has at most one member |
| Parser.QuotedNameFails | aJSON.cpp:692-704 | as written an object whose first name starts right after `{` with a byte above 32 other than a quote never parses |
| Parser.ArrayEndsAnywhere | aJSON.cpp:591-610 | as written any byte other than a comma ends an array and is consumed; as intended only `]` does |
| Parser.ObjectNeedsExtraBytes | aJSON.cpp:683-767 | as written `{x"a":true}}` parses to the object with member `a` |
| Parser.ObjectNeedsSecondBrace | aJSON.cpp:757-766 | as written `{x"a":true}` fails |
| Parser.SampleMember | aJSON.cpp:702-721 | the member `"a":true` is read as such |
| Parser.ParseValue | aJSON.cpp:423-515 | the stream method succeeds exactly when `ParseValueF` does, with the same value and end position |
| Parser.ReadLiteral | aJSON.cpp:462-514 | the `fread`-and-compare branch succeeds exactly when `Literal` does |
| Parser.ParseArray | aJSON.cpp:558-611 | the stream method succeeds exactly when `ParseArrayF` does, with the same value and end position |
| Parser.ReadMember | aJSON.cpp:702-721 | reading a name, `:` and value succeeds exactly when `MemberF` does |
| Parser.ParseObject | aJSON.cpp:683-767 | the stream method succeeds exactly when `ParseObjectF` does, with the same value and end position |
| Parser.ParseStream | aJSON.cpp:395-413 | a null stream gives NULL; otherwise a node comes back exactly when parsing failed |
| RoundTrip.Serialize | aJSON.cpp:286-349 | a printed value is never empty |
| RoundTrip.ValueRoundTrip | aJSON.cpp:423-515 | the intended `parseValue` reads a printed value back and stops right after its text |
| RoundTrip.IntValueRoundTrip | aJSON.cpp:79-159 | a printed integer is read back by the dispatch |
| RoundTrip.StringValueRoundTrip | aJSON.cpp:195-283 | a printed string is read back by the dispatch |
| RoundTrip.ArrayRoundTrip | aJSON.cpp:558-611 | the intended `parseArray` reads a printed array back, elements in order |
| RoundTrip.ObjectRoundTrip | aJSON.cpp:683-767 | the intended `parseObject` reads a printed object back, members in order |
| RoundTrip.ObjectValueRoundTrip | aJSON.cpp:757-766 | the intended `parseValue` reads a printed object back and stops right after its `}`: the byte that ends the member loop is the one tested for `}` |
| RoundTrip.FieldRoundTrip | aJSON.cpp:702-721 | a printed member is read back as the same name and value |
| RoundTrip.PrintThenParse | aJSON.cpp:395-413 | the intended `parse` of the printed text of a printable value gives that value |
| Tree.Item.constructor | aJSON.cpp:50-57 | a new node has the given type and value, no name, no children, and no reference flag |
| Tree.Item.GetArraySize | aJSON.cpp:806-814 | the number of children, counted in an `unsigned char` |
| Tree.Item.GetArrayItem | aJSON.cpp:815-822 | the child at the index, or null past the end |
| Tree.Item.GetObjectItem | aJSON.cpp:823-830 | the first child with the name, or null when none has it |
| Tree.Item.AddItemToArray | aJSON.cpp:854-870 | the item is appended after the unchanged children; a null item changes nothing |
| Tree.Item.AddItemToObject | aJSON.cpp:871-881 | the item is named and appended; a null item changes nothing |
| Tree.Item.AddItemReferenceToArray | aJSON.cpp:882-886 | a fresh reference to the item is appended, and the item itself is left alone |
| Tree.Item.AddItemReferenceToObject | aJSON.cpp:887-892 | a fresh named reference to the item is appended |
| Tree.Item.DetachItemFromArray | aJSON.cpp:894-910 | the child at the index is returned and removed, the others kept in order; null and no change past the end |
| Tree.Item.DeleteItemFromArray | aJSON.cpp:911-915 | the child at the index is removed and exactly what `deleteItem` frees for it is freed |
| Tree.Item.DetachItemFromObject | aJSON.cpp:916-926 | the child at the `unsigned char` index of the first match is returned and removed; null and no change without a match |
| Tree.Item.DeleteItemFromObject | aJSON.cpp:927-931 | the matched child is removed and what `deleteItem` frees for it is freed |
| Tree.Item.FindIndex | aJSON.cpp:919-923 | the index of the first child with the name, wrapped to an `unsigned char`, or none |
| Tree.Item.ReplaceItemInArray | aJSON.cpp:934-953 | the new item takes the index and the length is unchanged; the old child is freed; no change past the end |
| Tree.Item.ReplaceItemInObject | aJSON.cpp:954-967 | the new item gets the name and replaces the first match; no change without a match |
| Tree.Item.AddNullToObject | aJSON.cpp:1135-1139 | a fresh named Null node is appended |
| Tree.Item.AddTrueToObject | aJSON.cpp:1141-1145 | a fresh named True node is appended |
| Tree.Item.AddFalseToObject | aJSON.cpp:1147-1151 | a fresh named False node is appended |
| Tree.Item.AddNumberToObject | aJSON.cpp:1153-1157 | a fresh named Int node with the number is appended |
| Tree.Item.AddStringToObject | aJSON.cpp:1159-1164 | a fresh named String node with the string is appended |
| Tree.FindName | aJSON.cpp:823-830 | the index of the first child with the name: no earlier child has it, and the child there does |
| Tree.FindNameUnique | aJSON.cpp:823-830 | the first match is the only index with those two facts |
| Tree.FindNameLoop | aJSON.cpp:826-828 | the `strcmp` walk stops at `FindName` |
| Tree.RemoveAt | aJSON.cpp:894-910 | unlinking keeps the children before the index and shifts the ones after it down by one |
| Tree.AddThenDetach | aJSON.cpp:854-910 | detaching the child just appended gives back the chain |
| Tree.RemoveAtMultiset | aJSON.cpp:894-910 | detaching removes exactly one occurrence of the detached node |
| Tree.AddThenFind | aJSON.cpp:823-881 | after adding an item under a new name, looking that name up finds it |
| Tree.CreateReference | aJSON.cpp:840-851 | a fresh copy of the node with no name, no siblings and the reference flag set |
| Tree.FiniteTail | aJSON.cpp:60-76 | the rest of a finite chain is finite |
| Tree.FreedSplit | aJSON.cpp:60-76 | freeing a chain frees its head and then its tail |
| Tree.DeleteItem | aJSON.cpp:60-76 | the walk frees exactly `FreedNodes` and the strings `FreedStrings`, in order |
| Tree.DeleteNode | aJSON.cpp:63-74 | one turn of the walk frees the node's children (unless it is a reference), its string and the node |
| Tree.DeleteReference | aJSON.cpp:60-76 | deleting a reference frees the node alone, not the children or string it shares |
| Tree.DeleteOwnedString | aJSON.cpp:69-70 | deleting a String node that is not a reference frees its string |
| Tree.ChainFreed | aJSON.cpp:60-76 | every node of the chain is freed |
| Tree.ChildrenFreed | aJSON.cpp:66-67 | every child of a node that is not a reference is freed with it |
| Tree.CreateNull | aJSON.cpp:970-977 | a fresh Null node |
| Tree.CreateTrue | aJSON.cpp:979-989 | a fresh True node whose boolean is -1 |
| Tree.CreateFalse | aJSON.cpp:990-1000 | a fresh False node whose boolean is 0 |
| Tree.CreateBool | aJSON.cpp:1001-1011 | True with -1 for a non-zero argument, False with 0 otherwise |
| Tree.CreateInt | aJSON.cpp:1013-1023 | a fresh Int node with the number |
| Tree.CreateFloat | aJSON.cpp:1025-1035 | a fresh Float node with the number |
| Tree.CreateString | aJSON.cpp:1037-1047 | a fresh String node with the string |
| Tree.CreateArray | aJSON.cpp:1049-1056 | a fresh empty Array node |
| Tree.CreateObject | aJSON.cpp:1057-1064 | a fresh empty Object node |
| Tree.CreateIntArray | aJSON.cpp:1067-1082 | a fresh array of `count` fresh, distinct Int nodes holding the first `count` numbers in order |
| Tree.CreateFloatArray | aJSON.cpp:1084-1099 | the same, with Float nodes |
| Tree.CreateDoubleArray | aJSON.cpp:1101-1116 | the same as `createFloatArray` |
| Tree.CreateStringArray | aJSON.cpp:1118-1133 | a fresh array of `count` fresh, distinct String nodes holding the first `count` strings in order |

## Left out

- The value of a Float. `ParseNumberF` and `ParseNumber` model every read the float path makes, but yield `JFloat` without a number. The `pow` scaling is floating-point numerics.
- `printFloat`. Its `DBL_EPSILON` test and its `%e`/`%f` formatting are floating point. The reference printer writes a placeholder for a Float, and no printable value holds one.
- `printInt`'s `sprintf_P` is not called. `IntToDecimal` states the text `%d` produces.
- `printValue`, `printArray`, `printObject`, `printString` and `print`. Their signatures do not agree with one another, and `printObject` never writes member names. `RoundTrip.Serialize` is a reference printer in their place.
- `parse(char*)` and `parse(FILE*)`. They have empty bodies.
- Allocation failure. `newItem`, `malloc` and `realloc` never return null here, so the branches that return EOF or NULL for a failed allocation are not modelled.
- Freeing itself. `DeleteItem` returns the nodes and strings it would free rather than freeing them.
- The nodes the parser builds. The parser produces a `Json` value, not a chain of `aJsonObject` nodes. Which node a member's name is moved into and which `child`/`next`/`prev` links are set are not modelled. The node API is modelled separately on `Item`.
- The terminating 0 that `parseString` stores. The parsed string is the bytes before it.
- The global `aJson` object, `PROGMEM`/`PSTR`, `suffixObject` (folded into the appends) and the unused `firstByteMark` table.
- NumberCodec.ParseNumberF: integers are unbounded. The source accumulates in an `int`, so a long digit run overflows it; that overflow is not modelled.
- NumberCodec.ParseNumber: the same unbounded accumulator as `ParseNumberF`.
- Tree.Item.AddItemToArray: the item is taken to be a lone node. In the source, an item that still has siblings brings them along through its `next` link.
- Tree.Item.AddItemToObject: the old name's `free` and the `strdup` copy are not modelled. The name becomes the key's value.
- Tree.CreateReference: the reference holds a snapshot of the child chain. It shares the child nodes, but later appends or detaches through `item` or through the reference are not seen by the other. In the source both point at the same first child and `next` chain (aJSON.cpp:846), so the other does see them.
- Tree.Item.AddItemReferenceToArray: the same snapshot of the chain as `CreateReference`.
- Tree.Item.AddItemReferenceToObject: the same snapshot of the chain as `CreateReference`.
- StringCodec.StringBody: the `AsWritten` dialect stores through the appending `addToBuffer`, the outcome of the pointer comparison at aJSON.cpp:1170 on one stack layout; on the other layout nothing is stored (`StoreAllLosesEverything`).
- StringCodec.ParseString: proved against `StringBody`, so it carries the same layout assumption.
- Tree.CreateReference: the reference flag is a separate `isRef` field rather than a bit ORed into the type. `DeleteOwnedString` and `DeleteReference` state what the type test at line 69 then does.

`deleteItem` frees a node's string only when its type equals `aJson_String`. `createReference` ORs the reference bit into the type, so a reference never passes that test and its string is not freed (`Tree.DeleteReference`). Freeing a reference does not release the string it shares.

## Findings

| source | as written | input that shows it | evidently intended | confidence | as-written member | corrected member |
|---|---|---|---|---|---|---|
| aJSON.cpp:234-259 | after a backslash only `b f n r t` are decoded; `\"` and `\\` store nothing | `"\""` parses to the empty string | `\"` and `\\` decode to a quote and a backslash, inverting `printStringPtr` | not executed | StringCodec.EscapedQuoteIsDropped | StringCodec.StringRoundTrip |
| aJSON.cpp:1170 | `addToBuffer` compares the addresses of the two counters, not their values, and stores the byte only on the growing branch | any string, when the stack places `buffer_length` more than one `unsigned int` past `buffer_bytes`: nothing is stored | append the byte after the bytes stored | not executed | StringCodec.StoreAllLosesEverything | StringCodec.AddToBuffer |
| aJSON.cpp:591-610 | after an element, any byte other than a comma ends the array with success, and is consumed | `[1` and `[1x` parse as the array `[1]` | only `]` closes an array | not executed | Parser.ArrayEndsAnywhere | RoundTrip.ArrayRoundTrip |
| aJSON.cpp:724-755 | the stray `;` at line 752 ends the `if`, and the block after it returns EOF on every path. The loop also reads one byte too many after the comma (line 727) and ends its body without the `skip` and `fgetc` that `parseArray` has (aJSON.cpp:605-606), so it could not reach a third member | `{x"a":true, "b":true}}` fails only because of line 752 | the member loop reads every member | not executed | Parser.AtMostOneMember | RoundTrip.ObjectRoundTrip |
| aJSON.cpp:692-704 | the byte read to test for `}` is not pushed back, so the first name must start one byte later | `{"a":true}` fails | push the byte back and read the name from it | not executed | Parser.QuotedNameFails | RoundTrip.FieldRoundTrip |
| aJSON.cpp:757-766 | after the member loop one more byte is read, so the byte that ended the loop is lost and `}` must come after it | `{x"a":true}` fails while `{x"a":true}}` parses | the byte that ends the loop is tested for `}` | not executed | Parser.ObjectNeedsSecondBrace | RoundTrip.ObjectValueRoundTrip |
| aJSON.cpp:104-115 | the byte after an integer's digits is read and never pushed back | in `[1,2]` the comma after `1` is consumed | leave the cursor on the byte after the digits | not executed | NumberCodec.IntegerSwallowsNextByte | RoundTrip.IntValueRoundTrip |
| aJSON.cpp:406-412 | the result of `parseValue` is tested the wrong way round: success frees the node and returns NULL, failure returns the node | `null` gives NULL, `x` gives a node | return the node when parsing succeeds | not executed | Parser.ReturnsNodeInverted | RoundTrip.PrintThenParse |
