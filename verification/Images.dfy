/** Memory images: the hex-file writers, and the checker's loader that reads them back. */
module Images {
  import opened Bits
  import opened Isa
  import opened Machine
  import opened Encoding
  import opened Text
  import opened Wrappers

  // ----- hexadecimal tokens -----

  function Digit(d: nat): char
    requires d < 16
  {
    "0123456789abcdef"[d]
  }

  /** A digit as the writers print it. */
  predicate IsHex(c: char) {
    '0' <= c <= '9' || 'a' <= c <= 'f'
  }

  /** A digit as the loader reads it. */
  predicate IsDigit(c: char) {
    IsHex(c) || 'A' <= c <= 'F'
  }

  function DigitValue(c: char): nat
    requires IsDigit(c)
  {
    if c <= '9' then c as int - '0' as int
    else if c <= 'F' then c as int - 'A' as int + 10
    else c as int - 'a' as int + 10
  }

  /** Hexadecimal digits, at least `width` of them, zero-padded. */
  function Hex(v: nat, width: nat): (s: text)
    ensures forall i :: 0 <= i < |s| ==> IsHex(s[i])
    ensures |s| >= width
    decreases v, width
  {
    if v == 0 && width == 0 then ""
    else Hex(v / 16, if width > 0 then width - 1 else 0) + [Digit(v % 16)]
  }

  /** f"{v:08x}" for a width of eight: the sign takes one of the places. */
  function HexInt(v: int, width: nat): (s: text)
    requires width > 0
  {
    if v >= 0 then Hex(v, width) else "-" + Hex(-v, width - 1)
  }

  function DropUnderscore(s: text): (r: text)
    requires s != ""
    ensures |r| <= |s|
  {
    if s[|s| - 1] == '_' then s[..|s| - 1] else s
  }

  /** Digits, single underscores between them. */
  function ParseDigits(s: text): Option<nat> {
    if s == "" then None
    else
      var rest, last := s[..|s| - 1], s[|s| - 1];
      if !IsDigit(last) then None
      else if rest == "" then Some(DigitValue(last))
      else
        var high := ParseDigits(DropUnderscore(rest));
        if high.None? then None else Some(16 * high.value + DigitValue(last))
  }

  /** An optional prefix 0x, which an underscore may follow. */
  function ParseUnsigned(s: text): Option<nat> {
    if |s| >= 2 && s[0] == '0' && (s[1] == 'x' || s[1] == 'X') then
      ParseDigits(if |s| > 2 && s[2] == '_' then s[3..] else s[2..])
    else ParseDigits(s)
  }

  /** int(s, 16); None is Python's ValueError. */
  function ParseInt(s: text): Option<int> {
    if s != "" && s[0] == '-' then
      var v := ParseUnsigned(s[1..]);
      if v.None? then None else Some(0 - v.value as int)
    else ParseUnsigned(if s != "" && s[0] == '+' then s[1..] else s)
  }

  lemma DigitRoundTrip(d: nat)
    requires d < 16
    ensures IsHex(Digit(d)) && IsDigit(Digit(d)) && DigitValue(Digit(d)) == d
  {
  }

  /** Appending a digit to digits without underscores. */
  lemma {:induction false} ParseSnoc(s: text, c: char)
    requires IsDigit(c) && (s == "" || s[|s| - 1] != '_')
    ensures ParseDigits(s + [c]) ==
      if s == "" then Some(DigitValue(c))
      else if ParseDigits(s).None? then None
      else Some(16 * ParseDigits(s).value + DigitValue(c))
  {
    hide DigitValue, IsDigit, DropUnderscore, IsHex;
    var t := s + [c];
    assert t[..|t| - 1] == s && t[|t| - 1] == c;
    if s != "" {
      NothingDropped(s);
    }
  }

  lemma NothingDropped(s: text)
    requires s != "" && s[|s| - 1] != '_'
    ensures DropUnderscore(s) == s
  {
  }

  lemma NotUnderscore(c: char)
    requires IsHex(c)
    ensures c != '_'
  {
  }

  lemma {:induction false} HexDigits(v: nat, width: nat)
    ensures Hex(v, width) == "" <==> v == 0 && width == 0
    ensures Hex(v, width) != "" ==> ParseDigits(Hex(v, width)) == Some(v)
    decreases v, width
  {
    hide ParseDigits, Digit, DigitValue, IsDigit, IsHex;
    if v != 0 || width != 0 {
      var w := if width > 0 then width - 1 else 0;
      DigitRoundTrip(v % 16);
      HexDigits(v / 16, w);
      var rest := Hex(v / 16, w);
      if rest != "" {
        NotUnderscore(rest[|rest| - 1]);
      }
      ParseSnoc(rest, Digit(v % 16));
    }
  }

  /** Capital digits count like small ones. */
  lemma {:induction false} UpperDigits(s: text)
    requires forall i :: 0 <= i < |s| ==> IsHex(s[i])
    ensures forall i :: 0 <= i < |s| ==> IsDigit(Upper(s)[i]) && Upper(s)[i] != '_'
    ensures ParseDigits(Upper(s)) == ParseDigits(s)
    decreases |s|
  {
    hide ParseDigits, DigitValue, IsDigit;
    if s == "" {
      assert Upper(s) == "";
    } else {
      var front, c := s[..|s| - 1], s[|s| - 1];
      UpperDigits(front);
      UpperDigit(c);
      UpperSnoc(front, c);
      assert s == front + [c];
      assert front != "" ==> IsHex(front[|front| - 1]);
      ParseSnoc(front, c);
      ParseSnoc(Upper(front), Upper([c])[0]);
    }
  }

  lemma UpperSnoc(s: text, c: char)
    ensures Upper(s + [c]) == Upper(s) + [Upper([c])[0]]
  {
  }

  lemma UpperDigit(c: char)
    requires IsHex(c)
    ensures var d := Upper([c])[0]; IsDigit(c) && IsDigit(d) && d != '_' && DigitValue(d) == DigitValue(c)
  {
  }

  /** An underscore between two digits is ignored. */
  lemma {:induction false} UnderscoreIgnored(s: text, c: char)
    requires s != "" && s[|s| - 1] != '_' && IsDigit(c)
    ensures ParseDigits(s + "_" + [c]) == ParseDigits(s + [c])
  {
    hide DigitValue, IsDigit;
    var t, u := s + "_" + [c], s + [c];
    assert t[..|t| - 1] == s + "_" && (s + "_")[..|s|] == s;
    assert u[..|u| - 1] == s;
  }

  /** A printed number is also read with a sign, with a prefix, and in capitals. */
  lemma PrintedForms(v: nat, width: nat)
    requires width > 1
    ensures var h := Hex(v, width);
            && ParseInt(h) == ParseInt("+" + h) == ParseInt(Upper(h)) == Some(v)
            && ParseInt("0x" + h) == ParseInt("0X" + h) == ParseInt("0x_" + h) == Some(v)
            && ParseInt("-" + h) == ParseInt("-0x" + h) == Some(0 - v as int)
  {
    hide Hex, ParseDigits, Upper;
    var h := Hex(v, width);
    HexDigits(v, width);
    UpperDigits(h);
    assert IsHex(h[0]) && IsHex(h[1]);
    assert Upper(h)[1] != 'x' && Upper(h)[1] != 'X' by { assert IsDigit(Upper(h)[1]); }
    assert Upper(h)[0] != '-' && Upper(h)[0] != '+' by { assert IsDigit(Upper(h)[0]); }
    assert ("+" + h)[1..] == h && ("-" + h)[1..] == h && ("-0x" + h)[1..] == "0x" + h;
    assert ("0x" + h)[2..] == h && ("0X" + h)[2..] == h && ("0x_" + h)[3..] == h;
  }

  /** Parsing a printed integer gives it back. */
  lemma HexRoundTrip(v: int, width: nat)
    requires width > 1
    ensures ParseInt(HexInt(v, width)) == Some(v)
  {
    hide Hex, ParseDigits;
    if v >= 0 {
      HexDigits(v, width);
      assert IsHex(Hex(v, width)[0]) && IsHex(Hex(v, width)[1]);
    } else {
      HexDigits(-v, width - 1);
      var s := HexInt(v, width);
      assert s[1..] == Hex(-v, width - 1);
      assert |s| > 2 ==> IsHex(s[2]);
      assert IsHex(s[1]);
    }
  }

  /** A value that fits in the width is printed with exactly that many digits. */
  lemma {:induction false} HexWidth(v: nat, width: nat)
    requires v < P2(4 * width)
    ensures |Hex(v, width)| == width
    decreases width
  {
    if width > 0 {
      assert P2(4 * width) == 16 * P2(4 * (width - 1)) by {
        P2Add(4, 4 * (width - 1));
        P2Values();
      }
      HexWidth(v / 16, width - 1);
    }
  }

  // ----- the loader -----

  datatype Loaded = Loaded(memory: map<int, int>, index: int)

  /** One token: an address record or a word; None is Python's ValueError. */
  function LoadToken(l: Loaded, t: text): Option<Loaded> {
    if t != "" && t[0] == '@' then
      var index := ParseInt(t[1..]);
      if index.None? then None else Some(l.(index := index.value))
    else
      var w := ParseInt(t);
      if w.None? then None else Some(Loaded(l.memory[l.index * 4 := w.value], l.index + 1))
  }

  function LoadTokens(tokens: seq<text>): Option<Loaded> {
    if tokens == [] then Some(Loaded(map[], 0))
    else
      var l := LoadTokens(tokens[..|tokens| - 1]);
      if l.None? then None else LoadToken(l.value, tokens[|tokens| - 1])
  }

  /** load_data_image on the text of a hex file. */
  method LoadDataImage(file: text) returns (memory: Option<map<int, int>>)
    ensures var l := LoadTokens(Split(file, ""));
            memory == if l.None? then None else Some(l.value.memory)
  {
    hide LoadToken, Split;
    var tokens := Split(file, "");
    var words: map<int, int>, wordIndex := map[], 0;
    for n := 0 to |tokens|
      invariant LoadTokens(tokens[..n]) == Some(Loaded(words, wordIndex))
    {
      assert tokens[..n + 1][..n] == tokens[..n];
      var l := LoadToken(Loaded(words, wordIndex), tokens[n]);
      if l.None? {
        LoadStopped(tokens, n + 1);
        return None;
      }
      words, wordIndex := l.value.memory, l.value.index;
    }
    assert tokens[..|tokens|] == tokens;
    memory := Some(words);
  }

  lemma {:induction false} LoadStopped(tokens: seq<text>, n: nat)
    requires n <= |tokens| && LoadTokens(tokens[..n]).None?
    ensures LoadTokens(tokens).None?
    decreases |tokens| - n
  {
    if n < |tokens| {
      assert tokens[..n + 1][..n] == tokens[..n];
      LoadStopped(tokens, n + 1);
    } else {
      assert tokens[..n] == tokens;
    }
  }

  // ----- the writers -----

  function Padded(data: seq<byte>): (p: seq<byte>)
    ensures |p| % 4 == 0 && |data| <= |p| < |data| + 4
    ensures forall i :: 0 <= i < |p| ==> p[i] == if i < |data| then data[i] else 0
  {
    if |data| % 4 == 0 then data else data + seq(4 - |data| % 4, _ => 0)
  }

  /** Word k of the padded data, little-endian. */
  function WordAtIndex(data: seq<byte>, k: nat): word
    requires 4 * k + 3 < |data|
  {
    WordOf(data[4 * k], data[4 * k + 1], data[4 * k + 2], data[4 * k + 3])
  }

  function WordLines(data: seq<byte>): seq<text>
    requires |data| % 4 == 0
  {
    seq(|data| / 4, k requires 0 <= k < |data| / 4 => Hex(WordAtIndex(data, k), 8))
  }

  function AddressLine(base: int): text {
    "@" + HexInt(base / 4, 8)
  }

  /** Loading the file gives back every byte at its address from the base up, zeros in the
      padding, and nothing anywhere else. */
  ghost predicate Loads(file: text, data: seq<byte>, base: int) {
    var l, p := LoadTokens(Split(file, "")), Padded(data);
    && l.Some?
    && (forall i :: 0 <= i < |p| ==> LoadedByte(l.value.memory, base + i) == p[i])
    && (forall a :: a in l.value.memory <==> a % 4 == 0 && base <= a < base + |p|)
  }

  /** Loading the file gives the trampoline at address 0, every byte at its address from the
      base up, and nothing anywhere else. */
  ghost predicate LoadsRom(file: text, data: seq<byte>, base: nat) {
    var l, p := LoadTokens(Split(file, "")), Padded(data);
    && l.Some?
    && 0 in l.value.memory && l.value.memory[0] == ResetJal(base)
    && (forall i :: 0 <= i < |p| ==> LoadedByte(l.value.memory, base + i) == p[i])
    && (forall a :: a in l.value.memory <==> a == 0 || (a % 4 == 0 && base <= a < base + |p|))
  }

  /** binary_to_word_hex */
  method WordHex(data: seq<byte>) returns (file: text)
    ensures file == Unlines(WordLines(Padded(data)))
    ensures Loads(file, data, 0)
  {
    hide Unlines, WordLines, Loads;
    WordHexRoundTrip(data);
    var padded := data;
    if |data| % 4 != 0 {
      padded := data + seq(4 - |data| % 4, _ => 0);
    }
    file := Unlines(WordLines(padded));
  }

  /** binary_to_sparse_word_hex; a base between words is rounded down. */
  method SparseWordHex(data: seq<byte>, base: int) returns (file: text)
    ensures file == Unlines([AddressLine(base)] + WordLines(Padded(data)))
    ensures Loads(file, data, base - base % 4)
  {
    hide Unlines, WordLines, AddressLine, Loads;
    SparseRoundTrip(data, base);
    var padded := data;
    if |data| % 4 != 0 {
      padded := data + seq(4 - |data| % 4, _ => 0);
    }
    var lines := [AddressLine(base)];
    lines := lines + WordLines(padded);
    file := Unlines(lines);
  }

  /** The reset instruction jal x0, +base. */
  function ResetJal(base: nat): nat {
    Bw(Or, Bw(Or, Bw(Or, Bw(Or, 0x8000_0000 * (base / 0x10_0000 % 2), 0x20_0000 * (base / 2 % 0x400)),
                       0x10_0000 * (base / 0x800 % 2)), 0x1000 * (base / 0x1000 % 0x100)), 0x6F)
  }

  /** binary_to_relocated_rom_hex; None stands for the ValueError. */
  method RelocatedRomHex(data: seq<byte>, base: int) returns (file: Option<text>)
    ensures file.Some? <==> 0 < base < 0x10_0000 && base % 4 == 0
    ensures file.Some? ==>
      && file.value == Unlines([Hex(ResetJal(base), 8), AddressLine(base)] + WordLines(Padded(data)))
      && LoadsRom(file.value, data, base)
  {
    hide Hex, ResetJal, WordLines, Unlines, AddressLine, LoadsRom;
    if base <= 0 || base >= 0x10_0000 || base % 4 != 0 {
      return None;
    }
    RelocatedRoundTrip(data, base);
    var padded := data;
    if |data| % 4 != 0 {
      padded := data + seq(4 - |data| % 4, _ => 0);
    }
    var lines := [Hex(ResetJal(base), 8), AddressLine(base)];
    lines := lines + WordLines(padded);
    file := Some(Unlines(lines));
  }

  // ----- round trips -----

  /** Byte a of a loaded image. */
  function LoadedByte(memory: map<int, int>, a: int): nat {
    var base := a - a % 4;
    if base in memory && 0 <= memory[base] < W then ByteOf(memory[base], a % 4) else 0
  }

  /** The bytes of a loaded image are those of the memory of a hart that starts with it. */
  lemma LoadedIsImage(image: map<int, word>, loaded: map<int, int>, a: int)
    requires image.Keys == loaded.Keys && forall k :: k in image ==> image[k] == loaded[k]
    ensures LoadedByte(loaded, a) == ImageByte(image, a)
  {
  }

  lemma HexToken(v: int, width: nat)
    requires width > 1
    ensures IsToken(HexInt(v, width)) && HexInt(v, width)[0] != '@'
  {
    hide Hex;
    var s := Hex(if v >= 0 then v else -v, if v >= 0 then width else width - 1);
    assert forall i :: 0 <= i < |s| ==> IsHex(s[i]);
  }

  lemma LoadWordLine(l: Loaded, w: nat)
    ensures IsToken(Hex(w, 8))
    ensures LoadToken(l, Hex(w, 8)) == Some(Loaded(l.memory[l.index * 4 := w], l.index + 1))
  {
    hide Hex, ParseInt, IsToken;
    HexToken(w, 8);
    HexRoundTrip(w, 8);
  }

  lemma LoadAddressLine(l: Loaded, base: int)
    ensures IsToken(AddressLine(base))
    ensures LoadToken(l, AddressLine(base)) == Some(l.(index := base / 4))
  {
    hide HexInt, ParseInt;
    var s := AddressLine(base);
    HexToken(base / 4, 8);
    HexRoundTrip(base / 4, 8);
    assert s[1..] == HexInt(base / 4, 8);
  }

  lemma LoadSnoc(ts: seq<text>, t: text)
    requires LoadTokens(ts).Some?
    ensures LoadTokens(ts + [t]) == LoadToken(LoadTokens(ts).value, t)
  {
    hide LoadToken;
    assert (ts + [t])[..|ts|] == ts;
  }

  /** A word address among the first n words from index `start`. */
  predicate Covered(a: int, start: int, n: nat) {
    a % 4 == 0 && 4 * start <= a < 4 * (start + n)
  }

  /** m holds the first n words of the data from index `start`, and m0 elsewhere. */
  ghost predicate Holds(m: map<int, int>, m0: map<int, int>, data: seq<byte>, start: int, n: nat)
    requires 4 * n <= |data|
  {
    && (forall a :: a in m <==> Covered(a, start, n) || a in m0)
    && (forall k :: 0 <= k < n ==> m[4 * (start + k)] == WordAtIndex(data, k))
    && (forall a :: a in m0 && !Covered(a, start, n) ==> m[a] == m0[a])
  }

  lemma HoldsSnoc(m: map<int, int>, m0: map<int, int>, data: seq<byte>, start: int, n: nat)
    requires 4 * (n + 1) <= |data| && Holds(m, m0, data, start, n)
    ensures Holds(m[(start + n) * 4 := WordAtIndex(data, n)], m0, data, start, n + 1)
  {
    hide WordAtIndex;
    forall a ensures Covered(a, start, n + 1) <==> Covered(a, start, n) || a == 4 * (start + n) {}
  }

  /** Loading the first n word lines after a header that leaves the index at `start`. */
  lemma {:induction false} LoadWords(head: seq<text>, data: seq<byte>, n: nat, start: int, m0: map<int, int>)
    requires |data| % 4 == 0 && n <= |data| / 4
    requires LoadTokens(head) == Some(Loaded(m0, start))
    ensures var l := LoadTokens(head + WordLines(data)[..n]);
            l.Some? && l.value.index == start + n && Holds(l.value.memory, m0, data, start, n)
    decreases n
  {
    hide Hex, WordAtIndex, Holds, LoadToken, LoadTokens;
    if n == 0 {
      assert head + WordLines(data)[..0] == head;
      HoldsNothing(m0, data, start);
    } else {
      var ts := head + WordLines(data)[..n - 1];
      LoadWords(head, data, n - 1, start, m0);
      var l := LoadTokens(ts).value;
      assert head + WordLines(data)[..n] == ts + [Hex(WordAtIndex(data, n - 1), 8)];
      LoadSnoc(ts, Hex(WordAtIndex(data, n - 1), 8));
      LoadWordLine(l, WordAtIndex(data, n - 1));
      HoldsSnoc(l.memory, m0, data, start, n - 1);
    }
  }

  lemma HoldsNothing(m0: map<int, int>, data: seq<byte>, start: int)
    ensures Holds(m0, m0, data, start, 0)
  {
  }

  lemma WordLinesAreTokens(data: seq<byte>)
    requires |data| % 4 == 0
    ensures forall i :: 0 <= i < |WordLines(data)| ==> IsToken(WordLines(data)[i])
  {
    hide Hex, IsToken;
    forall k | 0 <= k < |data| / 4 ensures IsToken(WordLines(data)[k]) {
      HexToken(WordAtIndex(data, k), 8);
    }
  }

  /** Reading back written lines. */
  lemma LoadLines(head: seq<text>, data: seq<byte>, start: int, m0: map<int, int>)
    requires |data| % 4 == 0
    requires forall i :: 0 <= i < |head| ==> IsToken(head[i])
    requires LoadTokens(head) == Some(Loaded(m0, start))
    ensures var l := LoadTokens(Split(Unlines(head + WordLines(data)), ""));
            l.Some? && Holds(l.value.memory, m0, data, start, |data| / 4)
  {
    hide Hex, IsToken, LoadTokens, Holds, Split, Unlines;
    WordLinesAreTokens(data);
    SplitUnlines(head + WordLines(data));
    LoadWords(head, data, |data| / 4, start, m0);
    assert WordLines(data)[..|data| / 4] == WordLines(data);
  }

  /** A word of the image shows the data byte at its address. */
  lemma HeldByte(m: map<int, int>, m0: map<int, int>, data: seq<byte>, start: int, i: nat)
    requires |data| % 4 == 0 && i < |data| && Holds(m, m0, data, start, |data| / 4)
    ensures LoadedByte(m, 4 * start + i) == data[i]
  {
    hide ByteOf;
    var k, l := i / 4, i % 4;
    var a := 4 * (start + k);
    WordBase(4 * start + i, start + k, l);
    assert k < |data| / 4 && m[a] == WordAtIndex(data, k);
    assert Covered(a, start, |data| / 4) by { WordBase(a, start + k, 0); }
    hide Holds;
    BytesWord(data[4 * k], data[4 * k + 1], data[4 * k + 2], data[4 * k + 3]);
  }

  lemma WordBase(a: int, q: int, l: int)
    requires a == 4 * q + l && 0 <= l < 4
    ensures a % 4 == l && a - a % 4 == 4 * q
  {
    DivUnique(a, 4, q, l);
  }

  /** The sparse hex file of any bytes, at any base. */
  lemma SparseRoundTrip(data: seq<byte>, base: int)
    ensures Loads(Unlines([AddressLine(base)] + WordLines(Padded(data))), data, base - base % 4)
  {
    hide Hex, IsToken, Holds, Split, Unlines, AddressLine, LoadToken, LoadedByte;
    var p, start := Padded(data), base - base % 4;
    WordBase(start, base / 4, 0);
    HeadLoads(base);
    LoadLines([AddressLine(base)], p, base / 4, map[]);
    var m := LoadTokens(Split(Unlines([AddressLine(base)] + WordLines(p)), "")).value.memory;
    forall i | 0 <= i < |p| ensures LoadedByte(m, start + i) == p[i] {
      HeldByte(m, map[], p, base / 4, i);
    }
    HeldKeys(m, p, start);
  }

  lemma HeldKeys(m: map<int, int>, p: seq<byte>, base: int)
    requires |p| % 4 == 0 && base % 4 == 0 && Holds(m, map[], p, base / 4, |p| / 4)
    ensures forall a :: a in m <==> a % 4 == 0 && base <= a < base + |p|
  {
  }

  lemma HeadLoads(base: int)
    ensures IsToken(AddressLine(base))
    ensures LoadTokens([AddressLine(base)]) == Some(Loaded(map[], base / 4))
  {
    hide LoadToken, AddressLine;
    LoadAddressLine(Loaded(map[], 0), base);
    LoadSnoc([], AddressLine(base));
    assert [] + [AddressLine(base)] == [AddressLine(base)];
  }

  /** The plain hex file of any bytes. */
  lemma WordHexRoundTrip(data: seq<byte>)
    ensures Loads(Unlines(WordLines(Padded(data))), data, 0)
  {
    hide Hex, IsToken, Holds, Split, Unlines, LoadToken, LoadedByte;
    var p := Padded(data);
    LoadLines([], p, 0, map[]);
    assert [] + WordLines(p) == WordLines(p);
    var m := LoadTokens(Split(Unlines(WordLines(p)), "")).value.memory;
    forall i | 0 <= i < |p| ensures LoadedByte(m, i) == p[i] {
      HeldByte(m, map[], p, 0, i);
    }
    HeldKeys(m, p, 0);
  }

  // ----- the reset trampoline -----

  lemma JalPowers()
    ensures P2(31) == 0x8000_0000 && P2(21) == 0x20_0000 && P2(20) == 0x10_0000 && P2(12) == 0x1000
  {
    P2Values();
    assert P2(21) == 2 * P2(20);
  }

  /** For every allowed base the first word is jal x0 from address 0 to exactly the base. */
  lemma TrampolineReachesBase(base: int)
    requires 0 < base < 0x10_0000 && base % 4 == 0
    ensures ResetJal(base) < W
    ensures Decode(ResetJal(base)) == Some(Jal(0, base))
  {
    hide Bw, P2, Pack, Decode;
    JalPowers();
    var b10, b11, b19 := base / 2 % 0x400, base / 0x800 % 2, base / 0x1000 % 0x100;
    JalParts(base);
    JalPacks(b10, b11, b19);
    JalUnpacks(b10, b11, b19);
  }

  lemma JalUnpacks(b10: nat, b11: nat, b19: nat)
    requires b10 < 0x400 && b11 < 2 && b19 < 0x100
    ensures Decode(Pack(b10 / 0x10, 2 * (b10 % 0x10) + b11, b19 / 8, b19 % 8, 0, 0x6F))
         == Some(Jal(0, 0x1000 * b19 + 0x800 * b11 + 2 * b10))
  {
    hide Pack, Field, Opcode, Rd, Rs1, Rs2, Funct3, Funct7;
    var l := b10 % 0x10;
    PackFields(b10 / 0x10, 2 * l + b11, b19 / 8, b19 % 8, 0, 0x6F);
    PackSubfields(b10 / 0x10, 2 * l + b11, b19 / 8, b19 % 8, 0, 0x6F);
    DivUnique(2 * l + b11, 2, l, b11);
  }

  lemma JalParts(base: int)
    requires 0 < base < 0x10_0000 && base % 4 == 0
    ensures base / 0x10_0000 % 2 == 0
    ensures base == 0x1000 * (base / 0x1000 % 0x100) + 0x800 * (base / 0x800 % 2) + 2 * (base / 2 % 0x400)
  {
    var c := base / 4;
    var r12, h12 := c % 0x400, c / 0x400;
    JalDigits(h12, r12 / 0x200, r12 % 0x200 * 2);
  }

  lemma JalDigits(q: int, b: int, h: int)
    requires 0 <= q < 0x100 && 0 <= b < 2 && 0 <= h < 0x400
    ensures var base := 0x1000 * q + 0x800 * b + 2 * h;
            && base / 0x1000 % 0x100 == q && base / 0x800 % 2 == b && base / 2 % 0x400 == h
  {
    var base := 0x1000 * q + 0x800 * b + 2 * h;
    DivUnique(base, 0x1000, q, 0x800 * b + 2 * h);
    DivUnique(base, 0x800, 2 * q + b, 2 * h);
    DivUnique(2 * q + b, 2, q, b);
    DivUnique(base, 2, 0x800 * q + 0x400 * b + h, 0);
    DivUnique(0x800 * q + 0x400 * b + h, 0x400, 2 * q + b, h);
  }

  lemma JalPacks(b10: nat, b11: nat, b19: nat)
    requires b10 < 0x400 && b11 < 2 && b19 < 0x100
    ensures Bw(Or, Bw(Or, Bw(Or, Bw(Or, 0x8000_0000 * 0, 0x20_0000 * b10), 0x10_0000 * b11), 0x1000 * b19), 0x6F)
         == Pack(b10 / 0x10, 2 * (b10 % 0x10) + b11, b19 / 8, b19 % 8, 0, 0x6F)
  {
    hide Bw, P2;
    JalPowers();
    OrSum(31, 0x8000_0000, 0, 0x20_0000 * b10);
    OrSum(21, 0x20_0000, b10, 0x10_0000 * b11);
    OrSum(20, 0x10_0000, 2 * b10 + b11, 0x1000 * b19);
    OrSum(12, 0x1000, 0x200 * b10 + 0x100 * b11 + b19, 0x6F);
    JalRegroup(b10, b11, b19);
  }

  lemma JalRegroup(b10: int, b11: int, b19: int)
    requires 0 <= b10 < 0x400 && 0 <= b11 < 2 && 0 <= b19 < 0x100
    ensures 0x20_0000 * b10 + 0x10_0000 * b11 + 0x1000 * b19 + 0x6F
         == Pack(b10 / 0x10, 2 * (b10 % 0x10) + b11, b19 / 8, b19 % 8, 0, 0x6F)
  {
  }

  /** The relocated ROM, trampoline and text: they never overlap. */
  lemma RelocatedRoundTrip(data: seq<byte>, base: int)
    requires 0 < base < 0x10_0000 && base % 4 == 0
    ensures LoadsRom(Unlines([Hex(ResetJal(base), 8), AddressLine(base)] + WordLines(Padded(data))), data, base)
  {
    hide Hex, IsToken, Split, Unlines, AddressLine, LoadToken, LoadedByte, ResetJal, LoadTokens;
    var p, jal := Padded(data), ResetJal(base);
    var head := [Hex(jal, 8), AddressLine(base)];
    RomHeadLoads(jal, base);
    LoadLines(head, p, base / 4, map[0 := jal]);
    var m := LoadTokens(Split(Unlines(head + WordLines(p)), "")).value.memory;
    forall i | 0 <= i < |p| ensures LoadedByte(m, base + i) == p[i] {
      HeldByte(m, map[0 := jal], p, base / 4, i);
    }
    assert !Covered(0, base / 4, |p| / 4);
  }

  lemma RomHeadLoads(jal: nat, base: int)
    ensures IsToken(Hex(jal, 8)) && IsToken(AddressLine(base))
    ensures LoadTokens([Hex(jal, 8), AddressLine(base)]) == Some(Loaded(map[0 := jal], base / 4))
  {
    hide Hex, IsToken, LoadToken, AddressLine;
    var empty: map<int, int> := map[];
    LoadWordLine(Loaded(empty, 0), jal);
    LoadSnoc([], Hex(jal, 8));
    assert [] + [Hex(jal, 8)] == [Hex(jal, 8)];
    LoadAddressLine(Loaded(map[0 := jal], 1), base);
    LoadSnoc([Hex(jal, 8)], AddressLine(base));
    assert [Hex(jal, 8)] + [AddressLine(base)] == [Hex(jal, 8), AddressLine(base)];
    assert empty[0 := jal] == map[0 := jal];
  }
}
