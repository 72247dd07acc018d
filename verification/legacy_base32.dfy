/** The legacy Base32 codec (html/src/Utils/Base32.php), which goes through a string of
    '0'/'1' characters: each byte becomes 8 binary digits, the digits are cut into
    5-digit chunks (the last one completed with '0' on the right) and each chunk names
    an alphabet symbol; decoding runs the other way and keeps only complete 8-digit
    chunks.

    Both directions are proved against the reference encoding of module Base32Spec.
    The encoder's last line, as written, cannot run under `strict_types=1`; see
    `PadAndTrimAsWritten`. */
module LegacyBase32 {
  import opened Bits
  import opened Results
  import opened PhpStrings
  import Base32Spec

  /** `CHARACTERS`: the same 32 symbols as the current codec. */
  const Characters: string := "ABCDEFGHIJKLMNOPQRSTUVWXYZ234567"

  /** The exceptions the two methods can raise. */
  datatype PhpError =
    | TypeError(message: string)
    | InvalidArgument(message: string)

  const InvalidBase32Message: string := "Invalid Base32 string."

  /** A PHP number as produced by an expression: `ceil` always yields a float. */
  datatype PhpNumber = IntNumber(i: int) | FloatNumber(whole: int)

  /** `str_pad($s, $length, $pad)` called from a file with `strict_types=1`: an int
      length pads on the right; a float length is refused with a TypeError. */
  function StrictPadRight(s: string, length: PhpNumber, pad: char): (r: Result<string, PhpError>)
    ensures r.Ok? <==> length.IntNumber?
    ensures r.Ok? ==> |r.value| >= |s| && r.value[..|s|] == s
  {
    match length
    case IntNumber(n) => Ok(PadRight(s, if n < 0 then 0 else n, pad))
    case FloatNumber(_) => Err(TypeError("str_pad(): Argument #2 ($length) must be of type int, float given"))
  }

  /** `rtrim($s, '=')`. */
  function TrimEquals(s: string): string
  {
    Base32Spec.TrimPadding(s)
  }

  /** Line 32 as written: `ceil(strlen($output) / 8) * 8` is a float, so `str_pad`
      throws before `rtrim` is reached, whatever the output. */
  function PadAndTrimAsWritten(output: string): (r: Result<string, PhpError>)
    ensures r.Err? && r.error.TypeError?
  {
    var length := FloatNumber(((|output| + 7) / 8) * 8);
    match StrictPadRight(output, length, '=')
    case Err(e) => Err(e)
    case Ok(padded) => Ok(TrimEquals(padded))
  }

  /** Line 32 with the length passed as an int: the '=' padding is added and then
      trimmed off again, so a text of symbols comes back unchanged. */
  function PadAndTrim(output: string): (r: string)
    ensures Base32Spec.AllSymbols(output) ==> r == output
  {
    var length := IntNumber(((|output| + 7) / 8) * 8);
    match StrictPadRight(output, length, '=')
    case Err(_) => output
    case Ok(padded) =>
      PadRightIsPadding(output, ((|output| + 7) / 8) * 8);
      TrimEquals(padded)
  }

  lemma PadRightIsPadding(output: string, length: nat)
    ensures Base32Spec.AllSymbols(output) ==>
              TrimEquals(PadRight(output, length, '=')) == output
  {
    if Base32Spec.AllSymbols(output) {
      var n := if |output| < length then length - |output| else 0;
      assert PadRight(output, length, '=') == output + Base32Spec.Padding(n);
      Base32Spec.TrimPaddingOfSymbols(output, n);
    }
  }

  // ---------------------------------------------------------------------------
  // Encoding

  /** Appending the 8 binary digits of one more byte (line 23). */
  lemma ByteDigitsStep(prefix: seq<byte>, b: byte)
    ensures BitChars(Unchunk(prefix, 8)) + PadLeft(DecBin(b), 8, '0') == BitChars(Unchunk(prefix + [b], 8))
  {
    UnchunkPush(prefix, b, 8);
    Base32Spec.Pow2Constants();
    DecBinPadded(b, 8);
    BitCharsAppend(Unchunk(prefix, 8), ToBits(b, 8));
  }

  /** The bits not yet cut into chunks, completed with the zero bits of the last group;
      nothing once every bit is consumed. */
  ghost function PaddedRest(rest: seq<bit>, fill: nat): seq<bit>
  {
    if rest == [] then [] else rest + Zeros(fill)
  }

  /** The state of the chunk loop (lines 27-30): the symbols emitted so far name the
      first groups of the zero-completed bits, and `rest` holds the bits still to cut. */
  ghost predicate ChunkLoop(bits: seq<bit>, fill: nat, rest: seq<bit>, values: seq<nat>, output: string)
  {
    && fill < 5
    && (rest == [] || (|rest| + fill) % 5 == 0)
    && AllBelow(values, 32)
    && ChunkValues(bits + Zeros(fill), 5) == values + ChunkValues(PaddedRest(rest, fill), 5)
    && output == Base32Spec.Symbols(values)
  }

  /** The chunk loop starts on all the bits and no output. */
  lemma ChunkLoopStart(bits: seq<bit>)
    ensures ChunkLoop(bits, Base32Spec.GroupFill(|bits|), bits, [], "")
  {
    var fill := Base32Spec.GroupFill(|bits|);
    Base32Spec.GroupFillCompletes(|bits|);
    if bits == [] {
      assert fill == 0;
      assert bits + Zeros(fill) == [];
    }
    assert [] + ChunkValues(PaddedRest(bits, fill), 5) == ChunkValues(bits + Zeros(fill), 5);
  }

  /** One pass of the chunk loop: `str_pad($chunk, 5, '0')` read by `bindec` is the next
      5-bit group, and the bits it took are dropped from `rest`. */
  lemma ChunkLoopStep(bits: seq<bit>, fill: nat, rest: seq<bit>, values: seq<nat>, output: string,
                      chunks: seq<string>) returns (k: nat)
    requires ChunkLoop(bits, fill, rest, values, output)
    requires chunks != [] && StrSplit(BitChars(rest), 5) == chunks
    ensures k <= |rest|
    ensures var v := Bindec(PadRight(chunks[0], 5, '0'));
            && v < 32
            && ChunkLoop(bits, fill, rest[k..], values + [v], output + [Characters[v]])
            && StrSplit(BitChars(rest[k..]), 5) == chunks[1..]
  {
    assert rest != [];
    var tail: seq<bit>;
    k, tail := ChunkStep(rest, fill);
    BindecOfBitChars(tail);
    ChunkLoopAdvance(bits, fill, rest, values, output, k, BitsValue(tail));
  }

  lemma ChunkLoopAdvance(bits: seq<bit>, fill: nat, rest: seq<bit>, values: seq<nat>, output: string,
                         k: nat, v: nat)
    requires ChunkLoop(bits, fill, rest, values, output)
    requires k <= |rest| && v < 32 && (rest[k..] == [] || (|rest[k..]| + fill) % 5 == 0)
    requires ChunkValues(PaddedRest(rest, fill), 5) == [v] + ChunkValues(PaddedRest(rest[k..], fill), 5)
    ensures ChunkLoop(bits, fill, rest[k..], values + [v], output + [Characters[v]])
  {
    Base32Spec.SymbolsAppend(values, v);
    assert Characters == Base32Spec.Alphabet;
    var more := ChunkValues(PaddedRest(rest[k..], fill), 5);
    assert (values + [v]) + more == values + ([v] + more);
  }

  /** The first chunk of `rest`: `k` bits, completed to the 5-bit group `tail`. */
  lemma ChunkStep(rest: seq<bit>, fill: nat) returns (k: nat, tail: seq<bit>)
    requires rest != []
    requires fill < 5 && (|rest| + fill) % 5 == 0
    ensures k == if |rest| < 5 then |rest| else 5
    ensures tail == rest[..k] + Zeros(5 - k)
    ensures StrSplit(BitChars(rest), 5) == [BitChars(rest[..k])] + StrSplit(BitChars(rest[k..]), 5)
    ensures PadRight(BitChars(rest[..k]), 5, '0') == BitChars(tail)
    ensures BitsValue(tail) < 32
    ensures ChunkValues(PaddedRest(rest, fill), 5) ==
              [BitsValue(tail)] + ChunkValues(PaddedRest(rest[k..], fill), 5)
    ensures rest[k..] == [] || (|rest[k..]| + fill) % 5 == 0
  {
    k := if |rest| < 5 then |rest| else 5;
    tail := rest[..k] + Zeros(5 - k);
    BitsValueBound(tail);
    BitCharsSlice(rest, k);
    PadRightBitChars(rest[..k], 5);
    Base32Spec.Pow2Constants();
    var padded := rest + Zeros(fill);
    assert PaddedRest(rest, fill) == padded;
    if |rest| >= 5 {
      assert Zeros(0) == [];
      assert padded[..5] == tail;
      ModFiveDrop(|rest| + fill);
      assert |rest[k..]| + fill == (|rest| + fill) - 5;
      if |rest| == 5 {
        assert fill == 0;
        assert padded[5..] == [];
        assert rest[5..] == [];
      } else {
        assert padded[5..] == rest[5..] + Zeros(fill);
      }
      assert PaddedRest(rest[k..], fill) == padded[5..];
    } else {
      assert fill == 5 - |rest|;
      assert rest[..k] == rest;
      assert padded == tail;
      ChunkValuesOneGroup(padded, 5);
      assert rest[k..] == [];
      assert ChunkValues(PaddedRest(rest[k..], fill), 5) == [];
    }
  }

  lemma ModFiveDrop(n: nat)
    requires n >= 5
    ensures (n - 5) % 5 == n % 5
  {
  }

  /** When the chunk loop ends, the output is the unpadded reference text. */
  lemma ChunkLoopEnd(data: seq<byte>, values: seq<nat>, output: string)
    requires ChunkLoop(Unchunk(data, 8), Base32Spec.GroupFill(|Unchunk(data, 8)|), [], values, output)
    ensures output == Base32Spec.TrimPadding(Base32Spec.Encode(data))
    ensures |output| == (8 * |data| + 4) / 5
    ensures Base32Spec.AllSymbols(output)
  {
    var bits := Unchunk(data, 8);
    var fill := Base32Spec.GroupFill(|bits|);
    assert PaddedRest([], fill) == [];
    assert ChunkValues(PaddedRest([], fill), 5) == [];
    assert values + [] == values;
    assert ChunkValues(bits + Zeros(fill), 5) == values;
    Base32Spec.TrimmedEncode(data);
    Base32Spec.SymbolsAreAlphabet(values);
  }

  /** Lines 21-30: the symbols of the 5-bit chunks of the byte digits. */
  method EncodeSymbols(data: seq<byte>) returns (output: string)
    ensures output == Base32Spec.TrimPadding(Base32Spec.Encode(data))
    ensures |output| == (8 * |data| + 4) / 5
    ensures Base32Spec.AllSymbols(output)
  {
    var binary := "";
    for i := 0 to |data|
      invariant binary == BitChars(Unchunk(data[..i], 8))
    {
      ByteDigitsStep(data[..i], data[i]);
      assert data[..i + 1] == data[..i] + [data[i]];
      binary := binary + PadLeft(DecBin(data[i]), 8, '0');
    }
    WholePrefix(data);
    ghost var bits := Unchunk(data, 8);
    ghost var fill := Base32Spec.GroupFill(|bits|);
    ghost var rest := bits;
    ghost var values: seq<nat> := [];
    ChunkLoopStart(bits);
    output := "";
    var chunks := StrSplit(binary, 5);
    for j := 0 to |chunks|
      invariant StrSplit(BitChars(rest), 5) == chunks[j..]
      invariant ChunkLoop(bits, fill, rest, values, output)
    {
      var k := ChunkLoopStep(bits, fill, rest, values, output, chunks[j..]);
      var chunk := PadRight(chunks[j], 5, '0');
      output := output + [Characters[Bindec(chunk)]];
      values := values + [Bindec(chunk)];
      rest := rest[k..];
      assert chunks[j..][1..] == chunks[j + 1..];
    }
    ChunkLoopEnd(data, values, output);
  }

  /** `encodeUpper` as written: it always throws a TypeError (see the Findings). */
  method EncodeUpperAsWritten(data: seq<byte>) returns (r: Result<string, PhpError>)
    ensures r.Err? && r.error.TypeError?
  {
    var output := EncodeSymbols(data);
    r := PadAndTrimAsWritten(output);
  }

  /** `encodeUpper` with an int padding length: the Base32 text without '=' padding,
      ceil(8n/5) symbols. */
  method EncodeUpper(data: seq<byte>) returns (output: string)
    ensures output == Base32Spec.TrimPadding(Base32Spec.Encode(data))
    ensures |output| == (8 * |data| + 4) / 5
    ensures Base32Spec.AllSymbols(output)
  {
    output := EncodeSymbols(data);
    output := PadAndTrim(output);
  }

  // ---------------------------------------------------------------------------
  // Decoding

  /** `strpos(CHARACTERS, $c)` finds exactly the symbols, at their 5-bit value. */
  lemma StrPosCharacters(c: char)
    ensures c in Base32Spec.DecodeMap ==> StrPos(Characters, c) == Some(Base32Spec.DecodeMap[c])
    ensures c !in Base32Spec.DecodeMap ==> StrPos(Characters, c) == None
  {
    Base32Spec.AlphabetSymbols();
    Base32Spec.DecodeMapKeys();
    assert Characters == Base32Spec.Alphabet;
  }

  /** The state of the symbol loop (lines 47-53) after `i` characters of the trimmed
      text `t`: all were symbols, and `binary` holds their 5-digit forms. */
  ghost predicate SymbolLoop(t: string, i: nat, values: seq<nat>, binary: string)
  {
    && i <= |t|
    && Base32Spec.SymbolValues(t[..i]) == Ok(values)
    && binary == BitChars(Unchunk(values, 5))
  }

  /** One pass of the symbol loop: a symbol appends its 5 binary digits, any other
      character makes the whole text invalid. */
  lemma SymbolLoopStep(data: string, t: string, i: nat, values: seq<nat>, binary: string)
    requires t == Base32Spec.TrimPadding(data)
    requires SymbolLoop(t, i, values, binary) && i < |t|
    ensures StrPos(Characters, t[i]).None? ==> Base32Spec.Decode(data).Err?
    ensures StrPos(Characters, t[i]).Some? ==>
              var p := StrPos(Characters, t[i]).value;
              SymbolLoop(t, i + 1, values + [p], binary + PadLeft(DecBin(p), 5, '0'))
  {
    Base32Spec.SymbolValuesStep(t, i, values);
    StrPosCharacters(t[i]);
    if t[i] in Base32Spec.DecodeMap {
      var p := Base32Spec.DecodeMap[t[i]];
      Base32Spec.DecodeMapBound(t[i]);
      Base32Spec.Pow2Constants();
      DecBinPadded(p, 5);
      UnchunkPush(values, p, 5);
      BitCharsAppend(Unchunk(values, 5), ToBits(p, 5));
    }
  }

  /** The state of the byte loop (lines 56-60): `output` holds the complete bytes of
      the bits before `rest`, and `remaining` are the chunks of `rest`. */
  ghost predicate ByteLoop(all: seq<bit>, rest: seq<bit>, output: seq<byte>, remaining: seq<string>)
  {
    && StrSplit(BitChars(rest), 8) == remaining
    && ChunkValues(all, 8) == output + ChunkValues(rest, 8)
  }

  /** One chunk of `str_split($binary, 8)`: a complete one is the next byte, a shorter
      one is the last chunk and is dropped. */
  lemma ByteChunkStep(rest: seq<bit>) returns (k: nat)
    requires rest != []
    ensures k == if |rest| < 8 then |rest| else 8
    ensures StrSplit(BitChars(rest), 8) == [BitChars(rest[..k])] + StrSplit(BitChars(rest[k..]), 8)
    ensures k == 8 ==>
              (Bindec(BitChars(rest[..k])) < 256 &&
               ChunkValues(rest, 8) == [Bindec(BitChars(rest[..k]))] + ChunkValues(rest[k..], 8))
    ensures k < 8 ==> ChunkValues(rest, 8) == [] && rest[k..] == []
  {
    k := if |rest| < 8 then |rest| else 8;
    BitCharsSlice(rest, k);
    BindecOfBitChars(rest[..k]);
    BitsValueBound(rest[..k]);
    Base32Spec.Pow2Constants();
  }

  /** One pass of the byte loop: a chunk of 8 digits is appended as a byte. */
  lemma ByteLoopStep(all: seq<bit>, rest: seq<bit>, output: seq<byte>, remaining: seq<string>)
      returns (k: nat)
    requires ByteLoop(all, rest, output, remaining) && remaining != []
    ensures k <= |rest|
    ensures |remaining[0]| == 8 ==>
              Bindec(remaining[0]) < 256 &&
              ByteLoop(all, rest[k..], output + [Bindec(remaining[0]) as byte], remaining[1..])
    ensures |remaining[0]| != 8 ==> ByteLoop(all, rest[k..], output, remaining[1..])
  {
    assert rest != [];
    k := ByteChunkStep(rest);
    if k == 8 {
      var b := Bindec(remaining[0]);
      assert (output + [b]) + ChunkValues(rest[k..], 8) == output + ([b] + ChunkValues(rest[k..], 8));
    } else {
      assert output + [] == output;
    }
  }

  /** Both loops done: the output is the reference decoding. */
  lemma DecodeLoopsEnd(data: string, values: seq<nat>, binary: string, rest: seq<bit>, output: seq<byte>)
    requires SymbolLoop(Base32Spec.TrimPadding(data), |Base32Spec.TrimPadding(data)|, values, binary)
    requires ByteLoop(Unchunk(values, 5), rest, output, [])
    ensures Base32Spec.Decode(data) == Ok(output)
  {
    var t := Base32Spec.TrimPadding(data);
    assert t[..|t|] == t;
    assert BitChars(rest) == [];
    assert output + [] == output;
  }

  /** `decodeUpper`: the bytes of the text, or `InvalidArgumentException` when a character
      left after removing the trailing '=' is not a symbol. */
  method DecodeUpper(data: string) returns (r: Result<seq<byte>, PhpError>)
    ensures Base32Spec.Decode(data).Ok? ==> r == Ok(Base32Spec.Decode(data).value)
    ensures Base32Spec.Decode(data).Err? ==> r == Err(InvalidArgument(InvalidBase32Message))
  {
    var t := TrimEquals(data);
    var binary := "";
    ghost var values: seq<nat> := [];
    for i := 0 to |t|
      invariant SymbolLoop(t, i, values, binary)
    {
      SymbolLoopStep(data, t, i, values, binary);
      var position := StrPos(Characters, t[i]);
      if position.None? {
        return Err(InvalidArgument(InvalidBase32Message));
      }
      binary := binary + PadLeft(DecBin(position.value), 5, '0');
      values := values + [position.value];
    }
    var output: seq<byte> := [];
    var chunks := StrSplit(binary, 8);
    ghost var all := Unchunk(values, 5);
    ghost var rest := all;
    for j := 0 to |chunks|
      invariant ByteLoop(all, rest, output, chunks[j..])
    {
      var k := ByteLoopStep(all, rest, output, chunks[j..]);
      var byte := chunks[j];
      if |byte| == 8 {
        output := output + [Bindec(byte)];
      }
      rest := rest[k..];
      assert chunks[j..][1..] == chunks[j + 1..];
    }
    DecodeLoopsEnd(data, values, binary, rest, output);
    r := Ok(output);
  }

  /** The encoder and the decoder are inverse: decoding the unpadded text gives back the
      bytes. */
  lemma RoundTrip(data: seq<byte>)
    ensures Base32Spec.Decode(Base32Spec.TrimPadding(Base32Spec.Encode(data))) == Ok(data)
  {
    Base32Spec.DecodeOfTrimmed(Base32Spec.Encode(data));
    Base32Spec.EncodeDecodeRoundTrip(data);
  }
}
