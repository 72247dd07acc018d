/** The Base32 encoding of RFC 4648 section 6, stated on bit strings.

    This is the reference both PHP codecs are proved against: the byte string is read
    as one bit string, cut into 5-bit groups (the last one completed with zero bits),
    each group named by its alphabet symbol, and the text completed with '=' to a
    multiple of 8 characters. Decoding strips the trailing '=', maps each symbol back
    to its 5 bits and keeps the complete 8-bit groups. */
module Base32Spec {
  import opened Bits
  import opened Results

  /** The 32 symbols, indexed by the 5-bit value they stand for. */
  const Alphabet: string := "ABCDEFGHIJKLMNOPQRSTUVWXYZ234567"

  /** The inverse table, symbol to 5-bit value. */
  const DecodeMap: map<char, nat> := map[
    'A' := 0, 'B' := 1, 'C' := 2, 'D' := 3, 'E' := 4, 'F' := 5, 'G' := 6, 'H' := 7,
    'I' := 8, 'J' := 9, 'K' := 10, 'L' := 11, 'M' := 12, 'N' := 13, 'O' := 14, 'P' := 15,
    'Q' := 16, 'R' := 17, 'S' := 18, 'T' := 19, 'U' := 20, 'V' := 21, 'W' := 22, 'X' := 23,
    'Y' := 24, 'Z' := 25, '2' := 26, '3' := 27, '4' := 28, '5' := 29, '6' := 30, '7' := 31]

  /** The character class `[A-Z2-7]`. */
  predicate IsSymbol(c: char)
  {
    'A' <= c <= 'Z' || '2' <= c <= '7'
  }

  predicate AllSymbols(s: string)
  {
    forall i :: 0 <= i < |s| ==> IsSymbol(s[i])
  }

  predicate AllPadding(s: string)
  {
    forall i :: 0 <= i < |s| ==> s[i] == '='
  }

  function Padding(n: nat): (s: string)
    ensures |s| == n && AllPadding(s)
  {
    seq(n, _ => '=')
  }

  /** No padding leaves a text unchanged. */
  lemma PaddingNone(s: string)
    ensures s + Padding(0) == s
  {
  }

  /** PHP's `rtrim($s, '=')`: every trailing '=' removed. */
  function TrimPadding(s: string): (t: string)
    ensures |t| <= |s| && t == s[..|t|]
    ensures AllPadding(s[|t|..])
    ensures t == [] || t[|t| - 1] != '='
  {
    if s != [] && s[|s| - 1] == '=' then
      var front := s[..|s| - 1];
      var t := TrimPadding(front);
      assert s[..|t|] == front[..|t|];
      assert s[|t|..] == front[|t|..] + ['='];
      t
    else s
  }

  /** A character other than '=' is never trimmed, nor is anything before it. */
  lemma {:induction false} TrimPaddingKeeps(s: string, j: nat)
    requires j < |s| && s[j] != '='
    ensures j < |TrimPadding(s)|
  {
    if s[|s| - 1] == '=' {
      var front := s[..|s| - 1];
      assert front[j] == s[j];
      TrimPaddingKeeps(front, j);
    }
  }

  /** The symbols naming `values`, each below 32. */
  function Symbols(values: seq<nat>): (s: string)
    requires AllBelow(values, 32)
    ensures |s| == |values|
    decreases |values|
  {
    if values == [] then []
    else
      var front := values[..|values| - 1];
      assert forall i :: 0 <= i < |front| ==> front[i] == values[i];
      Symbols(front) + [Alphabet[values[|values| - 1]]]
  }

  /** The i-th symbol names the i-th value. */
  lemma {:induction false} SymbolsIndex(values: seq<nat>)
    requires AllBelow(values, 32)
    ensures forall i :: 0 <= i < |values| ==> Symbols(values)[i] == Alphabet[values[i]]
    decreases |values|
  {
    if values != [] {
      var front := values[..|values| - 1];
      assert forall i :: 0 <= i < |front| ==> front[i] == values[i];
      SymbolsIndex(front);
    }
  }

  /** The 5-bit values of the symbols of `t`, or the first character of `t` that is
      not a symbol. */
  function SymbolValues(t: string): (r: Result<seq<nat>, char>)
  {
    if t == [] then Ok([])
    else
      match SymbolValues(t[..|t| - 1])
      case Err(c) => Err(c)
      case Ok(values) =>
        var c := t[|t| - 1];
        if c in DecodeMap then Ok(values + [DecodeMap[c]]) else Err(c)
  }

  /** Zero bits that complete the last 5-bit group of an `n`-bit string. */
  function GroupFill(n: nat): nat
  {
    (5 - n % 5) % 5
  }

  /** The number of '=' that bring `n` symbols to a multiple of 8. */
  function PadLength(n: nat): nat
  {
    (8 - n % 8) % 8
  }

  /** The Base32 text of `data`, with '=' padding to a multiple of 8 characters. */
  function Encode(data: seq<byte>): (s: string)
  {
    var bits := Unchunk(data, 8);
    var values := ChunkValues(bits + Zeros(GroupFill(|bits|)), 5);
    ChunkValuesBelow(bits + Zeros(GroupFill(|bits|)), 5);
    Pow2Constants();
    var symbols := Symbols(values);
    symbols + Padding(PadLength(|symbols|))
  }

  /** The bytes `s` denotes, or the first offending character after the trailing '='
      are removed. Bits of an incomplete last byte are dropped. */
  function Decode(s: string): (r: Result<seq<byte>, char>)
  {
    match SymbolValues(TrimPadding(s))
    case Err(c) => Err(c)
    case Ok(values) =>
      ChunkValuesBelow(Unchunk(values, 5), 8);
      Pow2Constants();
      Ok(ChunkValues(Unchunk(values, 5), 8))
  }

  /** The bytes of a text whose symbols have the values `values`. */
  lemma DecodeOfValues(s: string, values: seq<nat>)
    requires SymbolValues(TrimPadding(s)) == Ok(values)
    ensures Decode(s) == Ok(ChunkValues(Unchunk(values, 5), 8))
  {
  }

  /** The character a text's symbols fail on is the decoder's error. */
  lemma DecodeOfError(s: string, c: char)
    requires SymbolValues(TrimPadding(s)) == Err(c)
    ensures Decode(s) == Err(c)
  {
  }

  // ---------------------------------------------------------------------------
  // The two tables

  lemma Pow2Constants()
    ensures Pow2(5) == 32 && Pow2(8) == 256
  {
  }

  lemma AlphabetSymbols()
    ensures |Alphabet| == 32
    ensures forall v :: 0 <= v < 32 ==> Alphabet[v] in DecodeMap && DecodeMap[Alphabet[v]] == v
  {
    AlphabetAToH();
    AlphabetIToP();
    AlphabetQToX();
    AlphabetYTo7();
  }

  /** The decoding table, four entries at a time. */
  lemma DecodeMapAToD()
    ensures 'A' in DecodeMap && DecodeMap['A'] == 0
    ensures 'B' in DecodeMap && DecodeMap['B'] == 1
    ensures 'C' in DecodeMap && DecodeMap['C'] == 2
    ensures 'D' in DecodeMap && DecodeMap['D'] == 3
  {
  }

  lemma DecodeMapEToH()
    ensures 'E' in DecodeMap && DecodeMap['E'] == 4
    ensures 'F' in DecodeMap && DecodeMap['F'] == 5
    ensures 'G' in DecodeMap && DecodeMap['G'] == 6
    ensures 'H' in DecodeMap && DecodeMap['H'] == 7
  {
  }

  lemma DecodeMapIToL()
    ensures 'I' in DecodeMap && DecodeMap['I'] == 8
    ensures 'J' in DecodeMap && DecodeMap['J'] == 9
    ensures 'K' in DecodeMap && DecodeMap['K'] == 10
    ensures 'L' in DecodeMap && DecodeMap['L'] == 11
  {
  }

  lemma DecodeMapMToP()
    ensures 'M' in DecodeMap && DecodeMap['M'] == 12
    ensures 'N' in DecodeMap && DecodeMap['N'] == 13
    ensures 'O' in DecodeMap && DecodeMap['O'] == 14
    ensures 'P' in DecodeMap && DecodeMap['P'] == 15
  {
  }

  lemma DecodeMapQToT()
    ensures 'Q' in DecodeMap && DecodeMap['Q'] == 16
    ensures 'R' in DecodeMap && DecodeMap['R'] == 17
    ensures 'S' in DecodeMap && DecodeMap['S'] == 18
    ensures 'T' in DecodeMap && DecodeMap['T'] == 19
  {
  }

  lemma DecodeMapUToX()
    ensures 'U' in DecodeMap && DecodeMap['U'] == 20
    ensures 'V' in DecodeMap && DecodeMap['V'] == 21
    ensures 'W' in DecodeMap && DecodeMap['W'] == 22
    ensures 'X' in DecodeMap && DecodeMap['X'] == 23
  {
  }

  lemma DecodeMapYTo3()
    ensures 'Y' in DecodeMap && DecodeMap['Y'] == 24
    ensures 'Z' in DecodeMap && DecodeMap['Z'] == 25
    ensures '2' in DecodeMap && DecodeMap['2'] == 26
    ensures '3' in DecodeMap && DecodeMap['3'] == 27
  {
  }

  lemma DecodeMap4To7()
    ensures '4' in DecodeMap && DecodeMap['4'] == 28
    ensures '5' in DecodeMap && DecodeMap['5'] == 29
    ensures '6' in DecodeMap && DecodeMap['6'] == 30
    ensures '7' in DecodeMap && DecodeMap['7'] == 31
  {
  }

  /** The two tables agree on 'A' to 'H', 'I' to 'P', 'Q' to 'X' and 'Y' to '7'. */
  lemma AlphabetAToH()
    ensures forall v :: 0 <= v < 8 ==> Alphabet[v] in DecodeMap && DecodeMap[Alphabet[v]] == v
  {
    DecodeMapAToD();
    DecodeMapEToH();
  }

  lemma AlphabetIToP()
    ensures forall v :: 8 <= v < 16 ==> Alphabet[v] in DecodeMap && DecodeMap[Alphabet[v]] == v
  {
    DecodeMapIToL();
    DecodeMapMToP();
  }

  lemma AlphabetQToX()
    ensures forall v :: 16 <= v < 24 ==> Alphabet[v] in DecodeMap && DecodeMap[Alphabet[v]] == v
  {
    DecodeMapQToT();
    DecodeMapUToX();
  }

  lemma AlphabetYTo7()
    ensures forall v :: 24 <= v < 32 ==> Alphabet[v] in DecodeMap && DecodeMap[Alphabet[v]] == v
  {
    DecodeMapYTo3();
    DecodeMap4To7();
  }

  lemma DecodeMapKeys()
    ensures forall c :: c in DecodeMap ==> IsSymbol(c) && DecodeMap[c] < 32 && Alphabet[DecodeMap[c]] == c
  {
  }

  lemma SymbolsAreKeys()
    ensures forall c :: IsSymbol(c) ==> c in DecodeMap
  {
  }

  lemma SymbolsAreAlphabet(values: seq<nat>)
    requires AllBelow(values, 32)
    ensures AllSymbols(Symbols(values))
  {
    AlphabetSymbols();
    DecodeMapKeys();
    SymbolsIndex(values);
  }

  lemma SymbolsAppend(values: seq<nat>, v: nat)
    requires AllBelow(values, 32) && v < 32
    ensures AllBelow(values + [v], 32)
    ensures Symbols(values + [v]) == Symbols(values) + [Alphabet[v]]
  {
    assert (values + [v])[..|values|] == values;
  }

  // ---------------------------------------------------------------------------
  // Trailing padding

  lemma {:induction false} TrimPaddingOfSymbols(symbols: string, n: nat)
    requires AllSymbols(symbols)
    ensures TrimPadding(symbols + Padding(n)) == symbols
  {
    if n == 0 {
      assert symbols + Padding(n) == symbols;
    } else {
      var s := symbols + Padding(n);
      assert s[..|s| - 1] == symbols + Padding(n - 1);
      TrimPaddingOfSymbols(symbols, n - 1);
    }
  }

  lemma TrimPaddingEmpty()
    ensures TrimPadding("") == ""
  {
  }

  // ---------------------------------------------------------------------------
  // Symbol values

  lemma {:induction false} SymbolValuesOfSymbols(values: seq<nat>)
    requires AllBelow(values, 32)
    ensures SymbolValues(Symbols(values)) == Ok(values)
  {
    if values != [] {
      var front := values[..|values| - 1];
      assert Symbols(values)[..|values| - 1] == Symbols(front);
      SymbolValuesOfSymbols(front);
      AlphabetSymbols();
      assert values == front + [values[|values| - 1]];
    }
  }

  /** Decoding the symbols succeeds exactly when every character is a symbol, and then
      yields one 5-bit value per character. */
  lemma {:induction false} SymbolValuesOk(t: string)
    ensures SymbolValues(t).Ok? <==> forall i :: 0 <= i < |t| ==> t[i] in DecodeMap
    ensures SymbolValues(t).Ok? ==> |SymbolValues(t).value| == |t| && AllBelow(SymbolValues(t).value, 32)
  {
    if t != [] {
      var front := t[..|t| - 1];
      SymbolValuesOk(front);
      DecodeMapKeys();
      assert forall i :: 0 <= i < |front| ==> front[i] == t[i];
    }
  }

  /** A failure names the first character that is not a symbol. */
  lemma {:induction false} SymbolValuesErr(t: string)
    requires SymbolValues(t).Err?
    ensures exists i :: 0 <= i < |t| && t[i] == SymbolValues(t).error && t[i] !in DecodeMap &&
                        forall j :: 0 <= j < i ==> t[j] in DecodeMap
  {
    var front := t[..|t| - 1];
    assert forall j :: 0 <= j < |front| ==> t[j] == front[j];
    if SymbolValues(front).Err? {
      assert SymbolValues(t) == SymbolValues(front);
      SymbolValuesErr(front);
      var i :| 0 <= i < |front| && front[i] == SymbolValues(front).error && front[i] !in DecodeMap &&
               forall j :: 0 <= j < i ==> front[j] in DecodeMap;
      assert t[i] == front[i];
    } else {
      SymbolValuesOk(front);
      var i := |t| - 1;
      assert t[i] == SymbolValues(t).error && t[i] !in DecodeMap;
      assert forall j :: 0 <= j < i ==> t[j] in DecodeMap;
    }
  }

  /** Reading one more character of `t`. */
  lemma SymbolValuesStep(t: string, i: nat, values: seq<nat>)
    requires i < |t|
    requires SymbolValues(t[..i]) == Ok(values)
    ensures t[i] in DecodeMap ==> SymbolValues(t[..i + 1]) == Ok(values + [DecodeMap[t[i]]])
    ensures t[i] !in DecodeMap ==> SymbolValues(t) == Err(t[i])
  {
    assert t[..i + 1][..i] == t[..i];
    if t[i] !in DecodeMap {
      SymbolValuesErrExtends(t, i + 1);
    }
  }

  lemma DecodeMapBound(c: char)
    requires c in DecodeMap
    ensures DecodeMap[c] < 32
  {
    DecodeMapKeys();
  }

  /** Once a prefix has failed, every extension fails with the same character. */
  lemma {:induction false} SymbolValuesErrExtends(t: string, k: nat)
    requires k <= |t|
    requires SymbolValues(t[..k]).Err?
    ensures SymbolValues(t) == SymbolValues(t[..k])
    decreases |t| - k
  {
    if k < |t| {
      var longer := t[..k + 1];
      assert longer[..|longer| - 1] == t[..k];
      assert SymbolValues(longer) == SymbolValues(t[..k]);
      SymbolValuesErrExtends(t, k + 1);
    } else {
      assert t[..k] == t;
    }
  }

  // ---------------------------------------------------------------------------
  // Encoding

  /** Encoding the empty byte string gives the empty text (no padding). */
  lemma EncodeEmpty()
    ensures Encode([]) == ""
  {
  }

  /** The text is the symbols followed by the padding to a multiple of 8. */
  lemma EncodeFromSymbols(data: seq<byte>, symbols: string)
    requires var bits := Unchunk(data, 8);
             var values := ChunkValues(bits + Zeros(GroupFill(|bits|)), 5);
             AllBelow(values, 32) && symbols == Symbols(values)
    ensures Encode(data) == symbols + Padding(PadLength(|symbols|))
  {
  }

  /** Counting symbols and padding for n input bytes. */
  lemma EncodeArithmetic(n: nat)
    ensures 8 * n + GroupFill(8 * n) == 5 * ((8 * n + 4) / 5)
    ensures var k := (8 * n + 4) / 5;
            && k + PadLength(k) == 8 * ((n + 4) / 5)
            && PadLength(k) == [0, 6, 4, 3, 1][n % 5]
  {
    var q, r := n / 5, n % 5;
    assert n == 5 * q + r;
    // Per remainder: k mod 8, the remainder of 8n + 4 by 5, 8n mod 5 and its quotient
    // part, and the quotient and remainder of n + 4 by 5.
    if r == 0 {
      EncodeArithmeticCase(n, q, 0, 4, 0, 0, 0, 4);
    } else if r == 1 {
      EncodeArithmeticCase(n, q, 2, 2, 3, 1, 1, 0);
    } else if r == 2 {
      EncodeArithmeticCase(n, q, 4, 0, 1, 3, 1, 1);
    } else if r == 3 {
      EncodeArithmeticCase(n, q, 5, 3, 4, 4, 1, 2);
    } else {
      EncodeArithmeticCase(n, q, 7, 1, 2, 6, 1, 3);
    }
  }

  /** One remainder of n by 5 in `EncodeArithmetic`, with the constants of that case. */
  lemma EncodeArithmeticCase(n: nat, q: nat, k: nat, e: nat, m: nat, d: nat, c: nat, f: nat)
    requires k < 8 && e < 5 && m < 5 && f < 5
    requires 8 * n + 4 == 5 * (8 * q + k) + e
    requires 8 * n == 5 * (8 * q + d) + m
    requires n + 4 == 5 * (q + c) + f
    requires m + (5 - m) % 5 == 5 * (k - d) && (8 - k) % 8 == 8 * c - k
    requires [0, 6, 4, 3, 1][n % 5] == 8 * c - k
    ensures 8 * n + GroupFill(8 * n) == 5 * ((8 * n + 4) / 5)
    ensures var k' := (8 * n + 4) / 5;
            && k' + PadLength(k') == 8 * ((n + 4) / 5)
            && PadLength(k') == [0, 6, 4, 3, 1][n % 5]
  {
    DivModOfSum(8 * q + k, e, 5);
    DivModOfSum(8 * q + d, m, 5);
    DivModOfSum(q + c, f, 5);
    DivModOfSum(q, k, 8);
  }

  /** The text is the symbols of the zero-completed 5-bit groups of the input bits,
      then the padding. */
  lemma EncodeParts(data: seq<byte>)
    ensures var bits := Unchunk(data, 8);
            var padded := bits + Zeros(GroupFill(|bits|));
            var k := (8 * |data| + 4) / 5;
            var values := ChunkValues(padded, 5);
            && |bits| == 8 * |data|
            && |padded| == 5 * k
            && |values| == k
            && AllBelow(values, 32)
            && Encode(data) == Symbols(values) + Padding(PadLength(k))
  {
    PaddedBitsCounts(data);
    var bits := Unchunk(data, 8);
    var values := ChunkValues(bits + Zeros(GroupFill(|bits|)), 5);
    var symbols := Symbols(values);
    assert Encode(data) == symbols + Padding(PadLength(|symbols|));
  }

  /** The input bits, completed with zero bits, make k groups of five for k symbols. */
  lemma PaddedBitsCounts(data: seq<byte>)
    ensures var bits := Unchunk(data, 8);
            var padded := bits + Zeros(GroupFill(|bits|));
            var k := (8 * |data| + 4) / 5;
            && |bits| == 8 * |data|
            && |padded| == 5 * k
            && |ChunkValues(padded, 5)| == k
            && AllBelow(ChunkValues(padded, 5), 32)
  {
    var n := |data|;
    var bits := Unchunk(data, 8);
    var padded := bits + Zeros(GroupFill(|bits|));
    var k := (8 * n + 4) / 5;
    EncodeArithmetic(n);
    assert |padded| == k * 5 + 0;
    ChunkValuesLength(padded, 5, k, 0);
    ChunkValuesBelow(padded, 5);
    Pow2Constants();
  }

  lemma TrimmedEncodeSymbols(data: seq<byte>)
    ensures var bits := Unchunk(data, 8);
            var values := ChunkValues(bits + Zeros(GroupFill(|bits|)), 5);
            && AllBelow(values, 32)
            && TrimPadding(Encode(data)) == Symbols(values)
  {
    EncodeParts(data);
    var bits := Unchunk(data, 8);
    var values := ChunkValues(bits + Zeros(GroupFill(|bits|)), 5);
    var k := (8 * |data| + 4) / 5;
    var p := PadLength(k);
    assert Encode(data) == Symbols(values) + Padding(p);
    SymbolsAreAlphabet(values);
    TrimPaddingOfSymbols(Symbols(values), p);
    assert TrimPadding(Encode(data)) == Symbols(values);
  }

  /** Without its padding the text is exactly the symbols, ceil(8n/5) of them. */
  lemma TrimmedEncode(data: seq<byte>)
    ensures var bits := Unchunk(data, 8);
            var values := ChunkValues(bits + Zeros(GroupFill(|bits|)), 5);
            && AllBelow(values, 32)
            && TrimPadding(Encode(data)) == Symbols(values)
            && |TrimPadding(Encode(data))| == (8 * |data| + 4) / 5
  {
    TrimmedEncodeSymbols(data);
    EncodeParts(data);
  }

  /** The zero bits of the last group complete the bit count to a multiple of 5. */
  lemma GroupFillCompletes(m: nat)
    ensures GroupFill(m) < 5 && (m + GroupFill(m)) % 5 == 0
  {
  }

  /** For n input bytes the text holds ceil(8n/5) symbols, then '=' up to 8*ceil(n/5)
      characters: 0, 6, 4, 3 or 1 of them for n mod 5 = 0, 1, 2, 3, 4. */
  lemma EncodeLayout(data: seq<byte>)
    ensures var s, k := Encode(data), (8 * |data| + 4) / 5;
            && |s| == 8 * ((|data| + 4) / 5)
            && k <= |s|
            && AllSymbols(s[..k])
            && AllPadding(s[k..])
            && |s| - k == [0, 6, 4, 3, 1][|data| % 5]
  {
    EncodeParts(data);
    EncodeArithmetic(|data|);
    var k := (8 * |data| + 4) / 5;
    var values := ChunkValues(Unchunk(data, 8) + Zeros(GroupFill(8 * |data|)), 5);
    SymbolsAreAlphabet(values);
    var s := Encode(data);
    assert s[..k] == Symbols(values);
    assert s[k..] == Padding(PadLength(k));
  }

  /** Decoding symbols followed by padding regroups their bits into bytes. */
  lemma DecodeOfSymbols(values: seq<nat>, n: nat)
    requires AllBelow(values, 32)
    ensures Decode(Symbols(values) + Padding(n)) == Ok(ChunkValues(Unchunk(values, 5), 8))
  {
    SymbolsAreAlphabet(values);
    TrimPaddingOfSymbols(Symbols(values), n);
    SymbolValuesOfSymbols(values);
  }

  /** Regrouping the zero-completed 5-bit groups into bytes gives back the bytes. */
  lemma RegroupBytes(data: seq<byte>, k: nat)
    requires 5 * k == 8 * |data| + GroupFill(8 * |data|)
    ensures var bits := Unchunk(data, 8);
            var padded := bits + Zeros(GroupFill(|bits|));
            ChunkValues(Unchunk(ChunkValues(padded, 5), 5), 8) == data
  {
    var bits := Unchunk(data, 8);
    var fill := GroupFill(|bits|);
    var padded := bits + Zeros(fill);
    UnchunkOfChunkValues(padded, 5, k);
    ChunkValuesDropsTail(bits, Zeros(fill), 8, |data|);
    Pow2Constants();
    ChunkValuesOfUnchunk(data, 8);
  }

  /** Decoding inverts encoding, for every byte string. */
  lemma EncodeDecodeRoundTrip(data: seq<byte>)
    ensures Decode(Encode(data)) == Ok(data)
  {
    EncodeParts(data);
    EncodeArithmetic(|data|);
    var bits := Unchunk(data, 8);
    var padded := bits + Zeros(GroupFill(|bits|));
    var k := (8 * |data| + 4) / 5;
    var values := ChunkValues(padded, 5);
    var p := PadLength(k);
    assert Encode(data) == Symbols(values) + Padding(p);
    DecodeOfSymbols(values, p);
    assert Decode(Encode(data)) == Ok(ChunkValues(Unchunk(values, 5), 8));
    RegroupBytes(data, k);
  }

  // ---------------------------------------------------------------------------
  // Decoding

  lemma DecodeEmpty()
    ensures Decode("") == Ok([])
  {
  }

  /** m symbols give floor(5m/8) bytes; the leftover bits are dropped without error. */
  lemma DecodeLength(s: string)
    requires Decode(s).Ok?
    ensures |Decode(s).value| == 5 * |TrimPadding(s)| / 8
  {
    var t := TrimPadding(s);
    SymbolValuesOk(t);
    var values := SymbolValues(t).value;
    var m := |t|;
    ChunkValuesLength(Unchunk(values, 5), 8, 5 * m / 8, 5 * m % 8);
  }

  /** Decoding fails exactly when, after the trailing '=' are removed, some character is
      not a symbol, and the failure names the first such character. */
  lemma DecodeErr(s: string)
    ensures var t := TrimPadding(s);
            Decode(s).Err? <==> exists i :: 0 <= i < |t| && !IsSymbol(t[i])
    ensures var t := TrimPadding(s);
            Decode(s).Err? ==>
              exists i :: 0 <= i < |t| && t[i] == Decode(s).error && !IsSymbol(t[i]) &&
                          forall j :: 0 <= j < i ==> IsSymbol(t[j])
  {
    var t := TrimPadding(s);
    SymbolValuesOk(t);
    DecodeMapKeys();
    SymbolsAreKeys();
    if SymbolValues(t).Err? {
      SymbolValuesErr(t);
      var i :| 0 <= i < |t| && t[i] == SymbolValues(t).error && t[i] !in DecodeMap &&
               forall j :: 0 <= j < i ==> t[j] in DecodeMap;
      assert !IsSymbol(t[i]);
      assert forall j :: 0 <= j < i ==> IsSymbol(t[j]);
    } else {
      assert forall i :: 0 <= i < |t| ==> IsSymbol(t[i]);
    }
  }

  /** Decoding looks only at the text without its trailing '='. */
  lemma DecodeOfTrimmed(s: string)
    ensures Decode(TrimPadding(s)) == Decode(s)
  {
    var t := TrimPadding(s);
    assert TrimPadding(t) == t;
  }

  /** An '=' that is followed, anywhere later, by a character other than '=' survives
      the trimming, so the text is rejected. */
  lemma PaddingBeforeSymbolRejected(s: string, i: nat, j: nat)
    requires i < j < |s|
    requires s[i] == '=' && s[j] != '='
    ensures Decode(s).Err?
  {
    var t := TrimPadding(s);
    TrimPaddingKeeps(s, j);
    assert t[i] == s[i] && !IsSymbol(t[i]);
    DecodeErr(s);
  }

  // ---------------------------------------------------------------------------
  // Examples

  lemma ByteBitsOfF()
    ensures Unchunk([102], 8) == [0, 1, 1, 0, 0, 1, 1, 0]
  {
    assert ToBits(1, 2) == ToBits(0, 1) + [1];
    assert ToBits(3, 3) == ToBits(1, 2) + [1];
    assert ToBits(6, 4) == ToBits(3, 3) + [0];
    assert ToBits(12, 5) == ToBits(6, 4) + [0];
    assert ToBits(25, 6) == ToBits(12, 5) + [1];
    assert ToBits(51, 7) == ToBits(25, 6) + [1];
    assert ToBits(102, 8) == ToBits(51, 7) + [0];
    UnchunkSingle(102, 8);
  }

  lemma SymbolBitsOfMY()
    ensures Unchunk([12, 24], 5) == [0, 1, 1, 0, 0, 1, 1, 0, 0, 0]
  {
    assert ToBits(1, 2) == ToBits(0, 1) + [1];
    assert ToBits(3, 3) == ToBits(1, 2) + [1];
    assert ToBits(6, 4) == ToBits(3, 3) + [0];
    assert ToBits(12, 5) == ToBits(6, 4) + [0];
    assert ToBits(3, 2) == ToBits(1, 1) + [1];
    assert ToBits(6, 3) == ToBits(3, 2) + [0];
    assert ToBits(12, 4) == ToBits(6, 3) + [0];
    assert ToBits(24, 5) == ToBits(12, 4) + [0];
    UnchunkSingle(12, 5);
    var values: seq<nat> := [12, 24];
    assert values[..1] == [12];
  }

  /** The 8 bits of "f" and 2 zero bits are the bits of the values 12 and 24. */
  lemma GroupsOfF()
    ensures GroupFill(8) == 2
    ensures Unchunk([102], 8) + Zeros(2) == Unchunk([12, 24], 5)
  {
    ByteBitsOfF();
    SymbolBitsOfMY();
    assert Zeros(2) == [0, 0];
  }

  lemma SymbolsOfMY()
    ensures AllBelow([12, 24], 32) && Symbols([12, 24]) == "MY"
  {
    SymbolsIndex([12, 24]);
  }

  /** The test vector of section 10 of RFC 4648: "f" encodes to "MY======". */
  lemma EncodeOfF()
    ensures Encode([102]) == "MY======"
  {
    var data: seq<byte> := [102];
    var bits := Unchunk(data, 8);
    GroupsOfF();
    Pow2Constants();
    ChunkValuesOfUnchunk([12, 24], 5);
    assert ChunkValues(bits + Zeros(GroupFill(|bits|)), 5) == [12, 24];
    SymbolsOfMY();
    EncodeFromSymbols(data, "MY");
    assert PadLength(2) == 6;
    assert Padding(6) == "======";
  }

  lemma BytesOfMY()
    ensures ChunkValues(Unchunk([12, 24], 5), 8) == [102]
  {
    GroupsOfF();
    ChunkValuesDropsTail(Unchunk([102], 8), Zeros(2), 8, 1);
    Pow2Constants();
    ChunkValuesOfUnchunk([102], 8);
  }

  /** "MY======" decodes back to "f"; the 2 leftover zero bits are dropped. */
  lemma DecodeOfMY()
    ensures Decode("MY======") == Ok([102])
  {
    SymbolsOfMY();
    DecodeOfSymbols([12, 24], 6);
    BytesOfMY();
    assert Padding(6) == "======";
    assert Symbols([12, 24]) + Padding(6) == "MY======";
  }

  /** One symbol is 5 bits, less than a byte: "A=======" decodes to no bytes. */
  lemma DecodeOfLoneSymbol()
    ensures Decode("A=======") == Ok([])
  {
    LoneSymbolText();
    DecodeOfSymbols([0], 7);
    assert |Unchunk([0], 5)| < 8;
  }

  lemma LoneSymbolText()
    ensures AllBelow([0], 32) && Symbols([0]) + Padding(7) == "A======="
  {
    SymbolsIndex([0]);
    assert Padding(7) == "=======";
  }

  /** "JBSWY31P" fails on its '1', the first character outside the alphabet. */
  lemma DecodeOfBadDigit()
    ensures Decode("JBSWY31P") == Err('1')
  {
    var t := "JBSWY31P";
    var values: seq<nat> := [9, 1, 18, 22, 24, 27];
    SymbolsIndex(values);
    assert Symbols(values) == t[..6];
    SymbolsAreAlphabet(values);
    SymbolValuesOfSymbols(values);
    DecodeMapKeys();
    SymbolValuesStep(t, 6, values);
    assert TrimPadding(t) == t;
  }
}
