/**
 * The text helpers of the command line tool: hex2int reads one hex digit,
 * atoi_b turns a string of hex digit pairs into bytes in a static buffer,
 * and get_args_list splits one input line in place into its arguments.
 *
 * A C string is an array of characters with its first NUL at index len.
 */
module OledCli {
  import opened Arith

  newtype uint8 = b: int | 0 <= b < 256

  /** The static buffer of atoi_b holds 4096 bytes. */
  const HEX_BUFFER_SIZE: nat := 4096

  /** A NUL-terminated string: the first NUL of `str` is at index len. */
  predicate IsCString(str: array<char>, len: nat)
    reads str
  {
    len < str.Length && str[len] == '\0' && forall k :: 0 <= k < len ==> str[k] != '\0'
  }

  // ---------------------------------------------------------------------
  // hex2int and atoi_b

  predicate IsHexDigit(c: char) {
    '0' <= c <= '9' || 'A' <= c <= 'F' || 'a' <= c <= 'f'
  }

  /** The digit character of a value below 16, in upper or lower case. */
  function HexChar(v: nat, upper: bool): (c: char)
    requires v < 16
    ensures IsHexDigit(c)
  {
    if v < 10 then ('0' as int + v) as char
    else if upper then ('A' as int + v - 10) as char
    else ('a' as int + v - 10) as char
  }

  /**
   * hex2int: the value of a hex digit in either case, -1 for any other
   * character; a digit's value is given by exactly its upper- and
   * lower-case characters.
   */
  function Hex2Int(c: char): (v: int)
    ensures -1 <= v < 16
    ensures v == -1 <==> !IsHexDigit(c)
    ensures v >= 0 ==> c == HexChar(v, true) || c == HexChar(v, false)
  {
    if '0' <= c <= '9' then c as int - '0' as int
    else if 'A' <= c <= 'F' then c as int - 'A' as int + 10
    else if 'a' <= c <= 'f' then c as int - 'a' as int + 10
    else -1
  }

  lemma Hex2IntHexChar(v: nat, upper: bool)
    requires v < 16
    ensures Hex2Int(HexChar(v, upper)) == v
  {
  }

  /**
   * One byte of atoi_b: `uint8_t data = hex2int(hi) << 4; data |=
   * hex2int(lo);`, both stored into a `uint8_t`. The shift of -1 is taken to
   * give -16, as a two's-complement target computes it.
   */
  function PairByte(hi: char, lo: char): uint8 {
    OrByte(ShiftNibble(Hex2Int(hi)), Hex2Int(lo))
  }

  /** `uint8_t data = v << 4` */
  function ShiftNibble(v: int): uint8 {
    ToByte(v * 16) as uint8
  }

  /** `data |= v` on a `uint8_t`: the low eight bits of the OR. */
  function OrByte(data: uint8, v: int): uint8 {
    ToByte(OrBits(data as nat, ToByte(v))) as uint8
  }

  /** Two digits make the byte 16 * hi + lo; a bad low digit gives 0xFF, a bad high digit the high nibble 0xF. */
  lemma PairByteValue(hi: char, lo: char)
    ensures IsHexDigit(hi) && IsHexDigit(lo) ==> PairByte(hi, lo) as int == Hex2Int(hi) * 16 + Hex2Int(lo)
    ensures !IsHexDigit(lo) ==> PairByte(hi, lo) == 0xFF
    ensures !IsHexDigit(hi) && IsHexDigit(lo) ==> PairByte(hi, lo) as int == 0xF0 + Hex2Int(lo)
  {
    assert Pow2(4) == 16 && Pow2(8) == 256 by {
      assert Pow2(2) == 4;
    }
    if !IsHexDigit(lo) {
      OrAllOnes(ToByte(Hex2Int(hi) * 16), 8);
    } else if IsHexDigit(hi) {
      OrShifted(Hex2Int(hi), Hex2Int(lo), 4);
    } else {
      assert ToByte(-16) == 15 * 16;
      OrShifted(15, Hex2Int(lo), 4);
    }
  }

  /** The bytes atoi_b writes for a string: one per pair of characters, a trailing odd one dropped. */
  function HexBytes(s: seq<char>): (r: seq<uint8>)
    ensures |r| == |s| / 2
  {
    if |s| < 2 then [] else [PairByte(s[0], s[1])] + HexBytes(s[2..])
  }

  /** A byte written as two hex digits, high nibble first. */
  function HexString(bytes: seq<uint8>, upper: bool): (s: seq<char>)
    ensures |s| == 2 * |bytes|
  {
    if bytes == [] then []
    else [HexChar(bytes[0] as int / 16, upper), HexChar(bytes[0] as int % 16, upper)] + HexString(bytes[1..], upper)
  }

  /** Reading back the written digits gives the bytes. */
  lemma {:induction false} HexBytesHexString(bytes: seq<uint8>, upper: bool)
    ensures HexBytes(HexString(bytes, upper)) == bytes
  {
    if bytes != [] {
      var b := bytes[0] as int;
      var s := HexString(bytes, upper);
      Hex2IntHexChar(b / 16, upper);
      Hex2IntHexChar(b % 16, upper);
      PairByteValue(s[0], s[1]);
      assert s[2..] == HexString(bytes[1..], upper);
      HexBytesHexString(bytes[1..], upper);
      assert [bytes[0]] + bytes[1..] == bytes;
    }
  }

  /** An unpaired last character changes nothing. */
  lemma {:induction false} HexBytesOdd(s: seq<char>, c: char)
    requires |s| % 2 == 0
    ensures HexBytes(s + [c]) == HexBytes(s)
  {
    if |s| >= 2 {
      assert (s + [c])[2..] == s[2..] + [c];
      HexBytesOdd(s[2..], c);
    }
  }

  /** The static buffer of atoi_b, which keeps its bytes from one call to the next. */
  class HexDecoder {
    const buffer: array<uint8>

    /** Static storage starts out zeroed. */
    constructor ()
      ensures fresh(buffer) && buffer.Length == HEX_BUFFER_SIZE
      ensures forall k :: 0 <= k < buffer.Length ==> buffer[k] == 0
    {
      buffer := new uint8[HEX_BUFFER_SIZE](_ => 0);
    }

    /** atoi_b; the bytes must fit the buffer, which the tool does not check. */
    method AtoiB(str: array<char>, len: nat) returns (r: array<uint8>)
      requires IsCString(str, len) && buffer.Length == HEX_BUFFER_SIZE
      requires len / 2 <= HEX_BUFFER_SIZE
      modifies buffer
      ensures r == buffer
      ensures buffer[..len / 2] == HexBytes(str[..len])
      ensures forall k :: len / 2 <= k < buffer.Length ==> buffer[k] == old(buffer[k])
    {
      ghost var s := str[..len];
      var p := 0;
      var ptr := 0;
      while str[p] != '\0'
        invariant p <= len && p == 2 * ptr
        invariant buffer[..ptr] == HexBytes(s[..p])
        invariant forall k :: len / 2 <= k < buffer.Length ==> buffer[k] == old(buffer[k])
        decreases len - p
      {
        ghost var q := p;
        var data := ShiftNibble(Hex2Int(str[p]));
        p := p + 1;
        if str[p] == '\0' {
          HexBytesLastOdd(s, q);
          break;
        }
        data := OrByte(data, Hex2Int(str[p]));
        assert data == PairByte(s[q], s[q + 1]);
        StoreByte(ptr, data);
        HexBytesPair(s, q);
        ptr := ptr + 1;
        p := p + 1;
      }
      assert p == len && s[..len] == s && ptr == len / 2;
      r := buffer;
    }

    /** `*ptr++ = data`: the byte goes after the ones written so far. */
    method StoreByte(i: nat, b: uint8)
      requires i < buffer.Length
      modifies buffer
      ensures buffer[..i + 1] == old(buffer[..i]) + [b]
      ensures forall k :: i < k < buffer.Length ==> buffer[k] == old(buffer[k])
    {
      buffer[i] := b;
    }
  }

  /** The bytes of the first q + 2 characters: those of the first q, then one more pair. */
  lemma HexBytesPair(s: seq<char>, q: nat)
    requires q % 2 == 0 && q + 2 <= |s|
    ensures HexBytes(s[..q + 2]) == HexBytes(s[..q]) + [PairByte(s[q], s[q + 1])]
  {
    assert s[..q + 2] == s[..q] + [s[q], s[q + 1]];
    HexBytesAppend(s[..q], s[q], s[q + 1]);
  }

  /** A string of odd length q + 1 has the bytes of its first q characters. */
  lemma HexBytesLastOdd(s: seq<char>, q: nat)
    requires q % 2 == 0 && q + 1 == |s|
    ensures HexBytes(s) == HexBytes(s[..q])
  {
    assert s == s[..q] + [s[q]];
    HexBytesOdd(s[..q], s[q]);
  }

  lemma {:induction false} HexBytesAppend(s: seq<char>, hi: char, lo: char)
    requires |s| % 2 == 0
    ensures HexBytes(s + [hi, lo]) == HexBytes(s) + [PairByte(hi, lo)]
  {
    if |s| >= 2 {
      assert (s + [hi, lo])[2..] == s[2..] + [hi, lo];
      HexBytesAppend(s[2..], hi, lo);
    } else {
      assert s == [];
      assert (s + [hi, lo])[2..] == [];
    }
  }

  // ---------------------------------------------------------------------
  // get_args_list

  /** A character that starts a run of separators. */
  predicate IsSeparator(c: char) {
    c == ' ' || c == ','
  }

  predicate IsNewline(c: char) {
    c == '\n' || c == '\r'
  }

  /** The first index from i on that does not hold a space, or |s|. */
  function RunEnd(s: seq<char>, i: nat): (j: nat)
    requires i <= |s|
    ensures i <= j <= |s| && (j < |s| ==> s[j] != ' ')
    decreases |s| - i
  {
    if i == |s| || s[i] != ' ' then i else RunEnd(s, i + 1)
  }

  /** Everything a run skips is a space. */
  lemma {:induction false} RunEndSpaces(s: seq<char>, i: nat)
    requires i <= |s|
    ensures forall k :: i <= k < RunEnd(s, i) ==> s[k] == ' '
    decreases |s| - i
  {
    if i < |s| && s[i] == ' ' {
      RunEndSpaces(s, i + 1);
    }
  }

  /** s with the characters at i .. j - 1 overwritten by NUL. */
  function Blank(s: seq<char>, i: nat, j: nat): (r: seq<char>)
    requires i <= j <= |s|
    ensures |r| == |s|
  {
    s[..i] + seq(j - i, _ => '\0') + s[j..]
  }

  lemma BlankAt(s: seq<char>, i: nat, j: nat)
    requires i <= j <= |s|
    ensures forall k :: 0 <= k < |s| ==> Blank(s, i, j)[k] == if i <= k < j then '\0' else s[k]
  {
  }

  /** The line after get_args_list and the indices at which its arguments start. */
  datatype Args = Args(text: seq<char>, starts: seq<nat>)

  /**
   * get_args_list from index i of a line s (without its NUL) on, with the
   * argument starts found so far. A newline or carriage return becomes NUL;
   * a space or comma and the spaces after it become NUL, and what follows
   * them starts an argument when it is not the terminator. The character
   * right after a run is stepped over unexamined. None: a run reaches the
   * terminator, after which the scan steps past it and reads beyond the line.
   */
  function ScanArgs(s: seq<char>, i: nat, starts: seq<nat>): Option<Args>
    requires i <= |s|
    decreases |s| - i
  {
    if i == |s| then Some(Args(s, starts))
    else
      var t := if IsNewline(s[i]) then s[i := '\0'] else s;
      if IsSeparator(t[i]) then
        var j := RunEnd(t, i + 1);
        if j == |t| then None
        else ScanArgs(Blank(t, i, j), j + 1, starts + [j])
      else ScanArgs(t, i + 1, starts)
  }

  /** get_args_list on a whole line: the line's start is the first argument. */
  function GetArgs(s: seq<char>): Option<Args> {
    ScanArgs(s, 0, [0])
  }

  /** The characters of a C string that starts at index p, up to the first NUL. */
  function Field(s: seq<char>, p: nat): seq<char>
    decreases |s| - p
  {
    if p >= |s| || s[p] == '\0' then [] else [s[p]] + Field(s, p + 1)
  }

  /** One round of the loop for a character that neither ends a line nor starts a run. */
  lemma ScanPlain(s: seq<char>, i: nat, starts: seq<nat>)
    requires i < |s| && !IsNewline(s[i]) && !IsSeparator(s[i])
    ensures ScanArgs(s, i, starts) == ScanArgs(s, i + 1, starts)
  {
  }

  /**
   * The line keeps its length, the characters the scan has passed are not
   * touched again, and every argument found lies after the ones before it.
   */
  lemma {:induction false} ScanArgsShape(s: seq<char>, i: nat, starts: seq<nat>)
    requires i <= |s| && ScanArgs(s, i, starts).Some?
    ensures var r := ScanArgs(s, i, starts).value;
      |r.text| == |s| && r.text[..i] == s[..i] &&
      |starts| <= |r.starts| && r.starts[..|starts|] == starts &&
      forall k :: |starts| <= k < |r.starts| ==> i <= r.starts[k] < |s|
    decreases |s| - i
  {
    if i < |s| {
      var t := if IsNewline(s[i]) then s[i := '\0'] else s;
      if IsSeparator(t[i]) {
        var j := RunEnd(t, i + 1);
        var u := Blank(t, i, j);
        ScanArgsShape(u, j + 1, starts + [j]);
        var r := ScanArgs(u, j + 1, starts + [j]).value;
        assert r.text[..i] == u[..i];
        assert r.starts[..|starts|] == (r.starts[..|starts| + 1])[..|starts|];
      } else {
        ScanArgsShape(t, i + 1, starts);
        var r := ScanArgs(t, i + 1, starts).value;
        assert r.text[..i] == r.text[..i + 1][..i];
      }
    }
  }

  /** One round of the loop at a separator: blank the run, then go on after the character that follows it. */
  lemma ScanSeparator(t: seq<char>, i: nat, starts: seq<nat>)
    requires i < |t| && IsSeparator(t[i])
    ensures var j := RunEnd(t, i + 1);
      ScanArgs(t, i, starts) == if j == |t| then None else ScanArgs(Blank(t, i, j), j + 1, starts + [j])
  {
  }

  /** A line that does not end in a space or a comma is scanned without running past its end. */
  lemma {:induction false} ScanArgsDefined(s: seq<char>, i: nat, starts: seq<nat>)
    requires i <= |s| && (s == [] || !IsSeparator(s[|s| - 1]))
    ensures ScanArgs(s, i, starts).Some?
    decreases |s| - i
  {
    if i < |s| {
      var t := if IsNewline(s[i]) then s[i := '\0'] else s;
      assert !IsSeparator(t[|t| - 1]);
      if IsSeparator(t[i]) {
        assert i != |t| - 1;
        RunEndBeforeLast(t, i + 1);
        var j := RunEnd(t, i + 1);
        ScanArgsDefined(Blank(t, i, j), j + 1, starts + [j]);
      } else {
        ScanArgsDefined(t, i + 1, starts);
      }
    }
  }

  /** A run of spaces from i on stops before a last character that is not a space. */
  lemma {:induction false} RunEndBeforeLast(t: seq<char>, i: nat)
    requires i < |t| && t[|t| - 1] != ' '
    ensures RunEnd(t, i) < |t|
    decreases |t| - i
  {
    if t[i] == ' ' {
      RunEndBeforeLast(t, i + 1);
    }
  }

  lemma GetArgsDefined(s: seq<char>)
    requires s == [] || !IsSeparator(s[|s| - 1])
    ensures GetArgs(s).Some? && |GetArgs(s).value.starts| >= 1 && GetArgs(s).value.starts[0] == 0
  {
    ScanArgsDefined(s, 0, [0]);
    ScanArgsShape(s, 0, [0]);
  }

  /**
   * get_args_list, with the arguments' starts written to argv as indices
   * into the line. The line must not make the scan run past its end, and
   * argv must hold every argument (the tool's 128 entries are not checked).
   */
  method GetArgsList(str: array<char>, len: nat, argv: array<nat>) returns (argc: nat)
    requires IsCString(str, len)
    requires GetArgs(str[..len]).Some? && |GetArgs(str[..len]).value.starts| <= argv.Length
    modifies str, argv
    ensures var r := GetArgs(old(str[..len])).value;
      str[..len] == r.text && argc == |r.starts| && argv[..argc] == r.starts
    ensures str[len..] == old(str[len..])
    ensures forall k :: argc <= k < argv.Length ==> argv[k] == old(argv[k])
  {
    ghost var result := GetArgs(str[..len]).value;
    ghost var s0 := str[..len];
    ScanArgsShape(s0, 0, [0]);
    var a := 0;
    argv[a] := 0;
    a := a + 1;
    var p := 0;
    assert argv[..a] == [0] && str[..len] == s0;
    while str[p] != '\0'
      invariant p <= len && 1 <= a <= argv.Length
      invariant forall k :: p <= k < len ==> str[k] != '\0'
      invariant str[len..] == old(str[len..])
      invariant ScanArgs(str[..len], p, argv[..a]) == Some(result)
      invariant forall k :: a <= k < argv.Length ==> argv[k] == old(argv[k])
      decreases len - p
    {
      ghost var line := str[..len];
      ScanArgsShape(line, p, argv[..a]);
      if str[p] == '\n' {
        str[p] := '\0';
      }
      if str[p] == '\r' {
        str[p] := '\0';
      }
      assert str[..len] == if IsNewline(line[p]) then line[p := '\0'] else line;
      if str[p] == ' ' || str[p] == ',' {
        p, a := SplitAt(str, len, p, argv, a, result);
      }
      p := p + 1;
    }
    assert str[..len] == result.text && argv[..a] == result.starts;
    argc := a;
  }

  /**
   * The separator branch of get_args_list: the run becomes NUL and, unless
   * the terminator follows it, the next argument is recorded; the index of
   * the character after the run is returned.
   */
  method SplitAt(str: array<char>, len: nat, i: nat, argv: array<nat>, a: nat, ghost result: Args)
    returns (p: nat, b: nat)
    requires i < len < str.Length && IsSeparator(str[i]) && a <= argv.Length
    requires forall k :: i <= k < len ==> str[k] != '\0'
    requires ScanArgs(str[..len], i, argv[..a]) == Some(result) && |result.starts| <= argv.Length
    modifies str, argv
    ensures i < p < len && a <= b <= argv.Length
    ensures ScanArgs(str[..len], p + 1, argv[..b]) == Some(result)
    ensures forall k :: p < k < len ==> str[k] == old(str[k])
    ensures str[len..] == old(str[len..])
    ensures forall k :: b <= k < argv.Length ==> argv[k] == old(argv[k])
  {
    ghost var t := str[..len];
    ScanSeparator(t, i, argv[..a]);
    p := BlankRun(str, len, i);
    b := a;
    if str[p] != '\0' {
      ScanArgsShape(str[..len], p + 1, argv[..a] + [p]);
      argv[b] := p;
      assert argv[..b + 1] == argv[..a] + [p];
      b := b + 1;
    }
  }

  /** The do-while of get_args_list: a run of separators becomes NUL; the index after it is returned. */
  method BlankRun(str: array<char>, len: nat, i: nat) returns (j: nat)
    requires i < len < str.Length && IsSeparator(str[i])
    modifies str
    ensures j == RunEnd(old(str[..len]), i + 1) && str[..len] == Blank(old(str[..len]), i, j)
    ensures str[len..] == old(str[len..])
  {
    ghost var t := str[..len];
    j := i;
    str[j] := '\0';
    j := j + 1;
    while j < len && str[j] == ' '
      invariant i < j <= len && RunEnd(t, i + 1) == RunEnd(t, j)
      invariant forall k :: 0 <= k < str.Length ==> str[k] == if i <= k < j then '\0' else old(str[k])
      decreases len - j
    {
      str[j] := '\0';
      j := j + 1;
    }
  }

  // ---------------------------------------------------------------------
  // A command line of words

  /** A character that is kept inside an argument. */
  predicate IsWordChar(c: char) {
    !IsSeparator(c) && !IsNewline(c) && c != '\0'
  }

  predicate IsWord(w: seq<char>) {
    |w| > 0 && forall k :: 0 <= k < |w| ==> IsWordChar(w[k])
  }

  /** What may stand between two arguments: a space or a comma, then any number of spaces. */
  predicate IsDelimiter(sep: seq<char>) {
    |sep| >= 1 && IsSeparator(sep[0]) && forall k :: 1 <= k < |sep| ==> sep[k] == ' '
  }

  /** The words written one after another with the delimiter between them. */
  function JoinWords(ws: seq<seq<char>>, sep: seq<char>): seq<char>
    requires |ws| >= 1
  {
    if |ws| == 1 then ws[0] else ws[0] + sep + JoinWords(ws[1..], sep)
  }

  /**
   * A line of words with delimiters between them, ended by any newlines and
   * carriage returns (fgets keeps the newline), splits into exactly those
   * words: one argument per word, each argument's string the word.
   */
  lemma GetArgsWords(ws: seq<seq<char>>, sep: seq<char>, ending: seq<char>)
    requires |ws| >= 1 && (forall k :: 0 <= k < |ws| ==> IsWord(ws[k])) && IsDelimiter(sep)
    requires forall k :: 0 <= k < |ending| ==> IsNewline(ending[k])
    ensures var r := GetArgs(JoinWords(ws, sep) + ending);
      r.Some? && |r.value.starts| == |ws| &&
      forall k :: 0 <= k < |ws| ==> Field(r.value.text, r.value.starts[k]) == ws[k]
  {
    var line := JoinWords(ws, sep) + ending;
    assert line[0..] == line;
    ScanWords(line, 0, [0], ws, sep, ending);
    ScanArgsShape(line, 0, [0]);
    var r := GetArgs(line).value;
    assert r.starts[0] == r.starts[..1][0];
  }

  lemma {:induction false} ScanWords(t: seq<char>, i: nat, starts: seq<nat>,
                                     ws: seq<seq<char>>, sep: seq<char>, ending: seq<char>)
    requires |ws| >= 1 && (forall k :: 0 <= k < |ws| ==> IsWord(ws[k])) && IsDelimiter(sep)
    requires forall k :: 0 <= k < |ending| ==> IsNewline(ending[k])
    requires i <= |t| && t[i..] == JoinWords(ws, sep) + ending
    ensures ScannedWords(ScanArgs(t, i, starts), i, starts, ws)
    decreases |ws|
  {
    if |ws| == 1 {
      LastWordScanned(t, i, starts, ws, sep, ending);
    } else {
      var u, j := NextWord(t, i, starts, ws, sep, ending);
      ScanWords(u, j, starts + [j], ws[1..], sep, ending);
    }
  }

  lemma LastWordScanned(t: seq<char>, i: nat, starts: seq<nat>,
                        ws: seq<seq<char>>, sep: seq<char>, ending: seq<char>)
    requires |ws| == 1 && IsWord(ws[0])
    requires forall k :: 0 <= k < |ending| ==> IsNewline(ending[k])
    requires i <= |t| && t[i..] == JoinWords(ws, sep) + ending
    ensures ScannedWords(ScanArgs(t, i, starts), i, starts, ws)
  {
    ScanLastWord(t, i, starts, ws[0], ending);
  }

  /**
   * Past the first word and its delimiter the scan goes on in the line u with
   * the delimiter blanked, from the start j of the second word.
   */
  lemma NextWord(t: seq<char>, i: nat, starts: seq<nat>,
                 ws: seq<seq<char>>, sep: seq<char>, ending: seq<char>) returns (u: seq<char>, j: nat)
    requires |ws| >= 2 && (forall k :: 0 <= k < |ws| ==> IsWord(ws[k])) && IsDelimiter(sep)
    requires i <= |t| && t[i..] == JoinWords(ws, sep) + ending
    ensures j <= |u| && u[j..] == JoinWords(ws[1..], sep) + ending
    ensures ScannedWords(ScanArgs(u, j, starts + [j]), j, starts + [j], ws[1..]) ==>
      ScannedWords(ScanArgs(t, i, starts), i, starts, ws)
  {
    var w0 := ws[0];
    var rest := JoinWords(ws[1..], sep) + ending;
    JoinFirst(ws, sep, ending);
    j := i + |w0| + |sep|;
    u := Blank(t, i + |w0|, j);
    var st := starts + [j];
    ScanDelimited(t, i, starts, w0, sep, rest);
    if ScannedWords(ScanArgs(u, j, st), j, st, ws[1..]) {
      ScanArgsShape(u, j, st);
      FieldsAfter(ScanArgs(u, j, st), u, i, j, starts, ws);
    }
  }

  /** The scan from the start i of the first of the words ws found each word as an argument. */
  predicate ScannedWords(r: Option<Args>, i: nat, starts: seq<nat>, ws: seq<seq<char>>)
    requires |ws| >= 1
  {
    r.Some? && |r.value.starts| == |starts| + |ws| - 1 && Field(r.value.text, i) == ws[0] &&
    forall k :: 1 <= k < |ws| ==> Field(r.value.text, r.value.starts[|starts| + k - 1]) == ws[k]
  }

  /** A line of two or more words: the first, the delimiter, and the line of the others. */
  lemma JoinFirst(ws: seq<seq<char>>, sep: seq<char>, ending: seq<char>)
    requires |ws| >= 2 && IsWord(ws[1])
    ensures JoinWords(ws, sep) + ending == ws[0] + sep + (JoinWords(ws[1..], sep) + ending)
    ensures |JoinWords(ws[1..], sep) + ending| > 0 && (JoinWords(ws[1..], sep) + ending)[0] == ws[1][0]
  {
    var tail := ws[1..];
    assert tail[0] == ws[1];
    if |tail| > 1 {
      assert JoinWords(tail, sep) == tail[0] + sep + JoinWords(tail[1..], sep);
    }
  }

  /**
   * The arguments of a scan that went on from the second word's start j:
   * the first word's string and those of the scan's own words.
   */
  lemma FieldsAfter(res: Option<Args>, u: seq<char>, i: nat, j: nat, starts: seq<nat>, ws: seq<seq<char>>)
    requires |ws| >= 2 && IsWord(ws[0]) && ScannedWords(res, j, starts + [j], ws[1..])
    requires i + |ws[0]| < j <= |u| && |res.value.text| == |u| && res.value.text[..j] == u[..j]
    requires u[i..i + |ws[0]|] == ws[0] && u[i + |ws[0]|] == '\0'
    requires res.value.starts[..|starts| + 1] == starts + [j]
    ensures ScannedWords(res, i, starts, ws)
  {
    var r := res.value;
    FieldBefore(r.text, u, i, ws[0], j);
    assert r.starts[|starts|] == r.starts[..|starts| + 1][|starts|] == j;
    forall k | 1 <= k < |ws|
      ensures Field(r.text, r.starts[|starts| + k - 1]) == ws[k]
    {
      if k >= 2 {
        assert ws[1..][k - 1] == ws[k];
      }
    }
  }

  /** The last word and the line's ending: no further argument, and the word's string ends at a NUL or the end. */
  lemma ScanLastWord(t: seq<char>, i: nat, starts: seq<nat>, w: seq<char>, ending: seq<char>)
    requires IsWord(w) && forall k :: 0 <= k < |ending| ==> IsNewline(ending[k])
    requires i <= |t| && t[i..] == w + ending
    ensures var r := ScanArgs(t, i, starts);
      r.Some? && r.value.starts == starts && Field(r.value.text, i) == w
  {
    var j := i + |w|;
    SplitSuffix(t, i, w, ending);
    SkipWord(t, i, |w|, starts);
    if ending == [] {
      FieldAt(t, i, w);
    } else {
      EndingScanned(t, i, j, starts, w);
    }
  }

  /** A word ended by one or more newlines: the newlines become NULs and only end the word. */
  lemma EndingScanned(t: seq<char>, i: nat, j: nat, starts: seq<nat>, w: seq<char>)
    requires IsWord(w) && i + |w| == j < |t| && t[i..j] == w
    requires forall k :: j <= k < |t| ==> IsNewline(t[k])
    ensures var r := ScanArgs(t, j, starts);
      r.Some? && r.value.starts == starts && Field(r.value.text, i) == w
  {
    var u := t[j := '\0'];
    NewlineStep(t, j, starts);
    SkipEnding(u, j + 1, starts);
    ScanArgsShape(u, j + 1, starts);
    var r := ScanArgs(u, j + 1, starts).value;
    assert r.text[..j + 1] == u[..j + 1];
    assert r.text[i..j] == w && r.text[j] == '\0';
    FieldAt(r.text, i, w);
  }

  /** A newline is overwritten with a NUL and the scan moves on. */
  lemma NewlineStep(t: seq<char>, j: nat, starts: seq<nat>)
    requires j < |t| && IsNewline(t[j])
    ensures ScanArgs(t, j, starts) == ScanArgs(t[j := '\0'], j + 1, starts)
  {
  }

  /**
   * A word, a delimiter and the next word: the scan steps over the word,
   * blanks the delimiter and records the next word's start j.
   */
  lemma ScanDelimited(t: seq<char>, i: nat, starts: seq<nat>, w: seq<char>, sep: seq<char>, rest: seq<char>)
    requires IsWord(w) && IsDelimiter(sep) && |rest| > 0 && IsWordChar(rest[0])
    requires i <= |t| && t[i..] == w + sep + rest
    ensures var j := i + |w| + |sep|; var u := Blank(t, i + |w|, j);
      j < |t| && ScanArgs(t, i, starts) == ScanArgs(u, j, starts + [j]) &&
      u[j..] == t[j..] && u[i..i + |w|] == w && u[i + |w|] == '\0'
  {
    var e := i + |w|;
    SplitSuffix(t, i, w, sep + rest);
    ScanWordDelimiter(t, i, starts, w, sep, rest);
    BlankOutside(t, e, e + |sep|, i);
  }

  /** The scan from the word's start goes on from the next word's start, with the run blanked. */
  lemma ScanWordDelimiter(t: seq<char>, i: nat, starts: seq<nat>, w: seq<char>, sep: seq<char>, rest: seq<char>)
    requires IsWord(w) && IsDelimiter(sep) && |rest| > 0 && IsWordChar(rest[0])
    requires i + |w| <= |t| && t[i..i + |w|] == w && t[i + |w|..] == sep + rest
    ensures var j := i + |w| + |sep|;
      j < |t| && ScanArgs(t, i, starts) == ScanArgs(Blank(t, i + |w|, j), j, starts + [j])
  {
    WordChars(t, i, w);
    SkipWord(t, i, |w|, starts);
    ScanDelimiter(t, i + |w|, starts, sep, rest);
  }

  /** The characters of a word found in the line are word characters. */
  lemma WordChars(t: seq<char>, i: nat, w: seq<char>)
    requires IsWord(w) && i + |w| <= |t| && t[i..i + |w|] == w
    ensures forall k :: i <= k < i + |w| ==> IsWordChar(t[k])
  {
    forall k | i <= k < i + |w|
      ensures IsWordChar(t[k])
    {
      assert t[k] == w[k - i];
    }
  }

  /** At a delimiter followed by a word: the run is blanked and the word's start recorded. */
  lemma ScanDelimiter(t: seq<char>, e: nat, starts: seq<nat>, sep: seq<char>, rest: seq<char>)
    requires IsDelimiter(sep) && |rest| > 0 && IsWordChar(rest[0])
    requires e <= |t| && t[e..] == sep + rest
    ensures var j := e + |sep|; var u := Blank(t, e, j);
      j < |t| && ScanArgs(t, e, starts) == ScanArgs(u, j, starts + [j])
  {
    var j := e + |sep|;
    SplitSuffix(t, e, sep, rest);
    RunEndAt(t, e + 1, j);
    ScanSeparator(t, e, starts);
    ScanPlain(Blank(t, e, j), j, starts + [j]);
  }

  /** What Blank leaves alone: the word before the run and everything after it; the run's first character is NUL. */
  lemma BlankOutside(t: seq<char>, e: nat, j: nat, i: nat)
    requires i <= e < j <= |t|
    ensures Blank(t, e, j)[j..] == t[j..] && Blank(t, e, j)[i..e] == t[i..e] && Blank(t, e, j)[e] == '\0'
  {
  }

  lemma SplitSuffix<T>(t: seq<T>, i: nat, a: seq<T>, b: seq<T>)
    requires i <= |t| && t[i..] == a + b
    ensures i + |a| <= |t| && t[i..i + |a|] == a && t[i + |a|..] == b
  {
    assert t[i..i + |a|] == (a + b)[..|a|];
    assert t[i + |a|..] == (a + b)[|a|..];
  }

  /** A string in the part of the line that the rest of the scan leaves alone. */
  lemma FieldBefore(x: seq<char>, u: seq<char>, i: nat, w: seq<char>, j: nat)
    requires IsWord(w) && i + |w| < j <= |u| && |x| == |u| && x[..j] == u[..j]
    requires u[i..i + |w|] == w && u[i + |w|] == '\0'
    ensures Field(x, i) == w
  {
    assert x[i..i + |w|] == x[..j][i..i + |w|];
    assert x[i + |w|] == x[..j][i + |w|];
    FieldAt(x, i, w);
  }

  /** The characters of a word are stepped over one by one. */
  lemma {:induction false} SkipWord(t: seq<char>, i: nat, n: nat, starts: seq<nat>)
    requires i + n <= |t| && forall k :: i <= k < i + n ==> IsWordChar(t[k])
    ensures ScanArgs(t, i, starts) == ScanArgs(t, i + n, starts)
    decreases n
  {
    if n > 0 {
      ScanPlain(t, i, starts);
      SkipWord(t, i + 1, n - 1, starts);
    }
  }

  /** Newlines at the end of the line become NUL and add no argument. */
  lemma {:induction false} SkipEnding(t: seq<char>, i: nat, starts: seq<nat>)
    requires i <= |t| && forall k :: i <= k < |t| ==> IsNewline(t[k])
    ensures ScanArgs(t, i, starts).Some? && ScanArgs(t, i, starts).value.starts == starts
    decreases |t| - i
  {
    if i < |t| {
      SkipEnding(t[i := '\0'], i + 1, starts);
    }
  }

  lemma {:induction false} RunEndAt(t: seq<char>, a: nat, b: nat)
    requires a <= b < |t| && t[b] != ' ' && forall k :: a <= k < b ==> t[k] == ' '
    ensures RunEnd(t, a) == b
    decreases b - a
  {
    if a < b {
      RunEndAt(t, a + 1, b);
    }
  }

  /** The C string at p is w when w's characters stand there, followed by a NUL or the end. */
  lemma {:induction false} FieldAt(x: seq<char>, p: nat, w: seq<char>)
    requires p + |w| <= |x| && x[p..p + |w|] == w && forall k :: 0 <= k < |w| ==> w[k] != '\0'
    requires p + |w| == |x| || x[p + |w|] == '\0'
    ensures Field(x, p) == w
    decreases |w|
  {
    if w != [] {
      assert x[p] == w[0];
      assert x[p + 1..p + |w|] == w[1..];
      FieldAt(x, p + 1, w[1..]);
      assert [w[0]] + w[1..] == w;
    }
  }
}
