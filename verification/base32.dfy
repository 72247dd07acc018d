/** The current Base32 codec (`RemoteMerge\Utils\Base32`): a bit buffer that takes in
    whole input units and gives out whole output units as soon as it holds enough bits.

    Both methods are proved equal to the reference encoding of module Base32Spec, so
    everything proved there (round trip, layout, error cases) holds of them.

    PHP keeps shifting the whole buffer left (the integer wraps at 64 bits); only its
    low `bufferLength` bits are ever read again, so the model keeps exactly those bits
    and clears the ones already written out. */
module Base32 {
  import opened Bits
  import opened Results
  import Base32Spec

  /** The encoder after reading the bits `bits`: the symbols of the complete groups of
      `done` are written out and the bits of `pending` sit in the buffer. */
  ghost predicate EncoderState(bits: seq<bit>, output: string, done: seq<bit>, pending: seq<bit>, buffer: nat)
  {
    && done + pending == bits
    && |done| == 5 * |output|
    && AllBelow(ChunkValues(done, 5), 32)
    && output == Base32Spec.Symbols(ChunkValues(done, 5))
    && buffer == BitsValue(pending)
  }

  /** `encodeUpper`: the Base32 text of `data`, '=' padded to a multiple of 8. */
  method EncodeUpper(data: seq<byte>) returns (output: string)
    ensures output == Base32Spec.Encode(data)
  {
    if data == [] {
      Base32Spec.EncodeEmpty();
      return "";
    }
    output := "";
    var buffer: nat := 0;
    var bufferLength: nat := 0;
    ghost var bits: seq<bit> := [];
    ghost var done: seq<bit> := [];
    ghost var pending: seq<bit> := [];
    var i := 0;
    while i < |data|
      invariant 0 <= i <= |data|
      invariant bits == Unchunk(data[..i], 8)
      invariant EncoderState(bits, output, done, pending, buffer)
      invariant bufferLength == |pending| < 5
    {
      ReadByte(data, i);
      TakeByte(bits, output, done, pending, buffer, data[i]);
      buffer := buffer * 256 + data[i];
      bufferLength := bufferLength + 8;
      bits := bits + ToBits(data[i], 8);
      pending := pending + ToBits(data[i], 8);
      while bufferLength >= 5
        invariant EncoderState(bits, output, done, pending, buffer)
        invariant bufferLength == |pending|
      {
        bufferLength := bufferLength - 5;
        EmitSymbol(bits, output, done, pending, buffer, bufferLength);
        output := output + [Base32Spec.Alphabet[(buffer / Pow2(bufferLength)) % 32]];
        buffer := buffer % Pow2(bufferLength);
        done := done + pending[..5];
        pending := pending[5..];
      }
      i := i + 1;
    }
    output := EncodeTail(data, bits, output, done, pending, buffer, bufferLength);
  }

  /** The end of `encodeUpper`: the symbol of the bits left in the buffer, if any, then
      the '=' padding to a multiple of 8. */
  method EncodeTail(ghost data: seq<byte>, ghost bits: seq<bit>, written: string, ghost done: seq<bit>,
                    ghost pending: seq<bit>, buffer: nat, bufferLength: nat)
    returns (output: string)
    requires bits == Unchunk(data[..|data|], 8)
    requires EncoderState(bits, written, done, pending, buffer)
    requires bufferLength == |pending| < 5
    ensures output == Base32Spec.Encode(data)
  {
    LastSymbolIndex(pending, buffer);
    output := written;
    if bufferLength > 0 {
      output := output + [Base32Spec.Alphabet[(buffer * Pow2(5 - bufferLength)) % 32]];
    }
    var padLength := (8 - |output| % 8) % 8;
    FinishEncoding(data, bits, written, done, pending, buffer, output, padLength);
    if padLength > 0 {
      output := output + Base32Spec.Padding(padLength);
    } else {
      Base32Spec.PaddingNone(output);
    }
  }

  /** The bits read up to and including byte `i`. */
  lemma ReadByte(data: seq<byte>, i: nat)
    requires i < |data|
    ensures Unchunk(data[..i + 1], 8) == Unchunk(data[..i], 8) + ToBits(data[i], 8)
  {
    assert data[..i + 1] == data[..i] + [data[i]];
    UnchunkPush(data[..i], data[i], 8);
  }

  lemma TakeByte(bits: seq<bit>, output: string, done: seq<bit>, pending: seq<bit>, buffer: nat, b: byte)
    requires EncoderState(bits, output, done, pending, buffer)
    ensures EncoderState(bits + ToBits(b, 8), output, done, pending + ToBits(b, 8), buffer * 256 + b)
  {
    PushByte(bits, done, pending, buffer, b);
  }

  /** The bits side of reading a byte: its eight bits join the pending ones. */
  lemma PushByte(bits: seq<bit>, done: seq<bit>, pending: seq<bit>, buffer: nat, b: byte)
    requires done + pending == bits && buffer == BitsValue(pending)
    ensures done + (pending + ToBits(b, 8)) == bits + ToBits(b, 8)
    ensures BitsValue(pending + ToBits(b, 8)) == buffer * 256 + b
  {
    var x := ToBits(b, 8);
    Base32Spec.Pow2Constants();
    BitsValuePush(pending, b, 8);
    ConcatAssoc(done, pending, x);
  }

  lemma EmitSymbol(bits: seq<bit>, output: string, done: seq<bit>, pending: seq<bit>, buffer: nat, rest: nat)
    requires EncoderState(bits, output, done, pending, buffer)
    requires |pending| == rest + 5
    ensures |Base32Spec.Alphabet| == 32
    ensures var symbol := (buffer / Pow2(rest)) % 32;
            EncoderState(bits, output + [Base32Spec.Alphabet[symbol]], done + pending[..5], pending[5..],
                         buffer % Pow2(rest))
  {
    EmitBits(bits, |output|, done, pending, buffer, 5);
    SymbolOut(done, pending, |output|, buffer);
    Base32Spec.SymbolsAppend(ChunkValues(done, 5), buffer / Pow2(|pending| - 5));
  }

  /** Writing out one group of `width` bits: they move from `pending` to `done`, and the
      buffer keeps the value of the bits left. */
  lemma EmitBits(bits: seq<bit>, groups: nat, done: seq<bit>, pending: seq<bit>, buffer: nat, width: nat)
    requires width > 0
    requires done + pending == bits && |done| == width * groups && buffer == BitsValue(pending)
    requires |pending| >= width
    ensures (done + pending[..width]) + pending[width..] == bits
    ensures |done + pending[..width]| == width * (groups + 1)
    ensures buffer % Pow2(|pending| - width) == BitsValue(pending[width..])
  {
    TakeGroup(done, pending, width, groups);
  }

  /** The symbol written out is the value of the next five pending bits. */
  lemma SymbolOut(done: seq<bit>, pending: seq<bit>, groups: nat, buffer: nat)
    requires |done| == 5 * groups && |pending| >= 5 && buffer == BitsValue(pending)
    ensures var x := buffer / Pow2(|pending| - 5);
            && 0 <= x < 32
            && x % 32 == x
            && ChunkValues(done + pending[..5], 5) == ChunkValues(done, 5) + [x]
  {
    Base32Spec.Pow2Constants();
    GroupOut(done, pending, 5, groups, buffer);
  }

  lemma GroupFillAfter(groups: nat, extra: nat)
    requires extra < 5
    ensures Base32Spec.GroupFill(5 * groups + extra) == if extra > 0 then 5 - extra else 0
  {
    DivModOfSum(groups, extra, 5);
  }

  /** Fewer than 5 bits shifted up to fill a group stay below 32. */
  lemma LastValueBound(pending: seq<bit>)
    requires |pending| <= 5
    ensures 0 <= BitsValue(pending) * Pow2(5 - |pending|) < 32
  {
    Base32Spec.Pow2Constants();
    Pow2Add(|pending|, 5 - |pending|);
    BitsValueBound(pending);
    MulBelow(BitsValue(pending), Pow2(|pending|), Pow2(5 - |pending|));
  }

  lemma PaddedGroup(pending: seq<bit>, fill: nat)
    requires 0 < |pending| && |pending| + fill == 5
    ensures ChunkValues(pending + Zeros(fill), 5) == [BitsValue(pending) * Pow2(fill)]
  {
    var z := Zeros(fill);
    var x := pending + z;
    BitsValueAppend(pending, z);
    BitsValueZeros(fill);
    assert BitsValue(x) == BitsValue(pending) * Pow2(fill);
    ChunkValuesOneGroup(x, 5);
  }

  /** The pending bits completed with zero bits form one last group, if there are any. */
  lemma LastGroup(done: seq<bit>, pending: seq<bit>, groups: nat)
    requires |done| == 5 * groups
    requires |pending| < 5
    ensures var fill := Base32Spec.GroupFill(|done + pending|);
            ChunkValues((done + pending) + Zeros(fill), 5) ==
              ChunkValues(done, 5) + if |pending| > 0 then [BitsValue(pending) * Pow2(5 - |pending|)] else []
  {
    var fill := Base32Spec.GroupFill(|done + pending|);
    assert fill == if |pending| > 0 then 5 - |pending| else 0 by {
      GroupFillAfter(groups, |pending|);
    }
    var tail := pending + Zeros(fill);
    assert (done + pending) + Zeros(fill) == done + tail;
    assert ChunkValues(done + tail, 5) == ChunkValues(done, 5) + ChunkValues(tail, 5) by {
      ChunkValuesAppend(done, tail, 5, groups);
    }
    if |pending| > 0 {
      assert ChunkValues(tail, 5) == [BitsValue(pending) * Pow2(5 - |pending|)] by {
        PaddedGroup(pending, fill);
      }
    } else {
      assert tail == [];
      assert ChunkValues(done, 5) + ChunkValues(tail, 5) == ChunkValues(done, 5);
    }
  }

  /** After the last byte, the pending bits completed with zero bits name the last
      symbol, if there are any. */
  lemma FinishSymbols(bits: seq<bit>, output: string, done: seq<bit>, pending: seq<bit>, buffer: nat)
    requires EncoderState(bits, output, done, pending, buffer)
    requires |pending| < 5
    ensures var values := ChunkValues(bits + Zeros(Base32Spec.GroupFill(|bits|)), 5);
            && AllBelow(values, 32)
            && 0 <= (buffer * Pow2(5 - |pending|)) % 32 < 32
            && Base32Spec.Symbols(values) ==
                 if |pending| > 0 then output + [Base32Spec.Alphabet[(buffer * Pow2(5 - |pending|)) % 32]]
                 else output
  {
    assert |Base32Spec.Alphabet| == 32;
    LastGroup(done, pending, |output|);
    LastValueBound(pending);
    var symbol := buffer * Pow2(5 - |pending|);
    ModBelow(symbol, 32);
    Base32Spec.SymbolsAppend(ChunkValues(done, 5), symbol);
    assert ChunkValues(done, 5) + [] == ChunkValues(done, 5);
  }

  /** The last symbol, shifted up from the pending bits, is a position of the alphabet. */
  lemma LastSymbolIndex(pending: seq<bit>, buffer: nat)
    requires |pending| < 5
    ensures |Base32Spec.Alphabet| == 32
    ensures 0 <= (buffer * Pow2(5 - |pending|)) % 32 < 32
  {
  }

  /** What is left to write after the last byte: the last symbol, if bits are pending,
      then the padding. */
  lemma FinishEncoding(data: seq<byte>, bits: seq<bit>, output: string, done: seq<bit>, pending: seq<bit>,
                       buffer: nat, symbols: string, padLength: int)
    requires bits == Unchunk(data[..|data|], 8)
    requires EncoderState(bits, output, done, pending, buffer)
    requires |pending| < 5
    requires symbols == if |pending| > 0 then output + [Base32Spec.Alphabet[(buffer * Pow2(5 - |pending|)) % 32]]
                        else output
    requires padLength == Base32Spec.PadLength(|symbols|)
    ensures padLength >= 0 && Base32Spec.Encode(data) == symbols + Base32Spec.Padding(padLength)
  {
    assert data[..|data|] == data;
    var values := ChunkValues(bits + Zeros(Base32Spec.GroupFill(|bits|)), 5);
    FinishSymbols(bits, output, done, pending, buffer);
    assert Base32Spec.Symbols(values) == symbols;
    assert bits == Unchunk(data, 8);
    Base32Spec.EncodeFromSymbols(data, symbols);
  }

  /** The decoder after reading the symbol values `values`: the complete bytes of `done`
      are written out and the bits of `pending` sit in the buffer. */
  ghost predicate DecoderState(values: seq<nat>, output: seq<byte>, done: seq<bit>, pending: seq<bit>, buffer: nat)
  {
    && AllBelow(values, 32)
    && done + pending == Unchunk(values, 5)
    && |done| == 8 * |output|
    && output == ChunkValues(done, 8)
    && buffer == BitsValue(pending)
  }

  /** `decodeUpper`: the bytes `data` denotes, or the first character, after trailing '='
      are removed, that is not in the alphabet (PHP throws a `TotpException` whose
      message names that character). */
  method DecodeUpper(data: string) returns (r: Result<seq<byte>, char>)
    ensures r == Base32Spec.Decode(data)
  {
    if data == "" {
      Base32Spec.TrimPaddingEmpty();
      return Ok([]);
    }
    var t := Base32Spec.TrimPadding(data);
    var output: seq<byte> := [];
    var buffer: nat := 0;
    var bufferLength: nat := 0;
    ghost var values: seq<nat> := [];
    ghost var done: seq<bit> := [];
    ghost var pending: seq<bit> := [];
    var i := 0;
    while i < |t|
      invariant 0 <= i <= |t|
      invariant Base32Spec.SymbolValues(t[..i]) == Ok(values)
      invariant DecoderState(values, output, done, pending, buffer)
      invariant bufferLength == |pending| < 8
    {
      var c := t[i];
      Base32Spec.SymbolValuesStep(t, i, values);
      if c !in Base32Spec.DecodeMap {
        Base32Spec.DecodeOfError(data, c);
        return Err(c);
      }
      var v := Base32Spec.DecodeMap[c];
      Base32Spec.DecodeMapBound(c);
      TakeSymbol(values, output, done, pending, buffer, v);
      buffer := buffer * 32 + v;
      bufferLength := bufferLength + 5;
      values := values + [v];
      pending := pending + ToBits(v, 5);
      if bufferLength >= 8 {
        bufferLength := bufferLength - 8;
        EmitByte(values, output, done, pending, buffer, bufferLength);
        output := output + [(buffer / Pow2(bufferLength)) % 256];
        buffer := buffer % Pow2(bufferLength);
        done := done + pending[..8];
        pending := pending[8..];
      }
      i := i + 1;
    }
    FinishDecoding(data, t, values, output, done, pending, buffer);
    r := Ok(output);
  }

  lemma TakeSymbol(values: seq<nat>, output: seq<byte>, done: seq<bit>, pending: seq<bit>, buffer: nat, v: nat)
    requires DecoderState(values, output, done, pending, buffer)
    requires v < 32
    ensures DecoderState(values + [v], output, done, pending + ToBits(v, 5), buffer * 32 + v)
  {
    PushSymbol(values, done, pending, buffer, v);
  }

  /** The bits side of reading a symbol: its five bits join the pending ones. */
  lemma PushSymbol(values: seq<nat>, done: seq<bit>, pending: seq<bit>, buffer: nat, v: nat)
    requires done + pending == Unchunk(values, 5) && buffer == BitsValue(pending)
    requires AllBelow(values, 32) && v < 32
    ensures AllBelow(values + [v], 32)
    ensures done + (pending + ToBits(v, 5)) == Unchunk(values + [v], 5)
    ensures BitsValue(pending + ToBits(v, 5)) == buffer * 32 + v
  {
    assert forall i :: 0 <= i < |values| ==> (values + [v])[i] == values[i];
    Base32Spec.Pow2Constants();
    BitsValuePush(pending, v, 5);
    UnchunkPushPending(values, done, pending, v, 5);
  }

  lemma EmitByte(values: seq<nat>, output: seq<byte>, done: seq<bit>, pending: seq<bit>, buffer: nat, rest: nat)
    requires DecoderState(values, output, done, pending, buffer)
    requires |pending| == rest + 8
    ensures 0 <= (buffer / Pow2(rest)) % 256 < 256
    ensures DecoderState(values, output + [(buffer / Pow2(rest)) % 256], done + pending[..8], pending[8..],
                         buffer % Pow2(rest))
  {
    EmitBits(Unchunk(values, 5), |output|, done, pending, buffer, 8);
    ByteOut(done, pending, |output|, buffer);
  }

  /** The byte written out is the value of the next eight pending bits. */
  lemma ByteOut(done: seq<bit>, pending: seq<bit>, groups: nat, buffer: nat)
    requires |done| == 8 * groups && |pending| >= 8 && buffer == BitsValue(pending)
    ensures var x := buffer / Pow2(|pending| - 8);
            && 0 <= x < 256
            && x % 256 == x
            && ChunkValues(done + pending[..8], 8) == ChunkValues(done, 8) + [x]
  {
    Base32Spec.Pow2Constants();
    GroupOut(done, pending, 8, groups, buffer);
  }

  /** Bits left in the buffer at the end are fewer than a byte and are dropped. */
  /** After the last symbol the decoded bytes are the text's bytes. */
  lemma FinishDecoding(data: string, t: string, values: seq<nat>, output: seq<byte>, done: seq<bit>,
                       pending: seq<bit>, buffer: nat)
    requires t == Base32Spec.TrimPadding(data)
    requires Base32Spec.SymbolValues(t[..|t|]) == Ok(values)
    requires DecoderState(values, output, done, pending, buffer)
    requires |pending| < 8
    ensures Base32Spec.Decode(data) == Ok(output)
  {
    assert t[..|t|] == t;
    FinishBytes(values, output, done, pending, buffer);
    Base32Spec.DecodeOfValues(data, values);
  }

  lemma FinishBytes(values: seq<nat>, output: seq<byte>, done: seq<bit>, pending: seq<bit>, buffer: nat)
    requires DecoderState(values, output, done, pending, buffer)
    requires |pending| < 8
    ensures ChunkValues(Unchunk(values, 5), 8) == output
  {
    ChunkValuesDropsTail(done, pending, 8, |output|);
  }
}
