/** The line format exchanged between peers (Console/PtitChat/Peer.cs): one
    packet per line, fields separated by '#', the first field a type tag.
    Integers are written in decimal and read back with the rules of .NET's
    `Int32.Parse` / `Int64.Parse`; dates are opaque stamps. */
module Wire {
  import opened Wrappers
  import opened Fields

  const RUMOR := "RUMOR"
  const UPDATE := "UPDATE"
  const DISCONNECT := "DISC"
  const PRIVATEMSG := "PM"
  const FILETRANSFER := "FT"

  const SEP := '#'

  const INT32_MIN := -0x8000_0000
  const INT32_MAX := 0x7FFF_FFFF
  const INT64_MIN := -0x8000_0000_0000_0000
  const INT64_MAX := 0x7FFF_FFFF_FFFF_FFFF

  /** The bytes of a file chunk, sent raw after its header line. */
  newtype byte = b: int | 0 <= b < 256

  predicate IsInt32(n: int) { INT32_MIN <= n <= INT32_MAX }
  predicate IsInt64(n: int) { INT64_MIN <= n <= INT64_MAX }

  // ---------------------------------------------------------------- dates

  /** A `DateTime` as the text `string.Format` writes for it. */
  datatype Date = Date(stamp: string)

  /** The texts `DateTime.Parse` accepts, reduced to: non-empty, and free of
      the field separator and of the two characters at which `ReadLine`
      ends a line ('\n' and '\r'). */
  predicate IsStamp(s: string) { |s| > 0 && SEP !in s && '\n' !in s && '\r' !in s }

  function ParseDate(s: string): (r: Option<Date>)
    ensures r.Some? ==> r.value.stamp == s
  {
    if IsStamp(s) then Some(Date(s)) else None
  }

  // ------------------------------------------------------------- integers

  predicate IsDigit(c: char) { '0' <= c <= '9' }

  predicate AllDigits(s: string) { forall i :: 0 <= i < |s| ==> IsDigit(s[i]) }

  /** The white space `NumberStyles.Integer` allows around a number. */
  predicate IsWhite(c: char) { c == ' ' || '\t' <= c <= '\r' }

  function DigitChar(d: nat): (c: char)
    requires d < 10
    ensures IsDigit(c)
  {
    (('0' as int) + d) as char
  }

  function DigitValue(c: char): nat
    requires IsDigit(c)
  {
    (c as int) - ('0' as int)
  }

  /** Decimal digits of `n`, without leading zeros. */
  function NatToDigits(n: nat): (s: string)
    decreases n
  {
    if n < 10 then [DigitChar(n)] else NatToDigits(n / 10) + [DigitChar(n % 10)]
  }

  /** `n.ToString()`. */
  function FormatInt(n: int): string
  {
    if n < 0 then "-" + NatToDigits(-n) else NatToDigits(n)
  }

  /** The value of a string of decimal digits, leading zeros allowed. */
  function DigitsValue(s: string): nat
    requires AllDigits(s)
    decreases |s|
  {
    if |s| == 0 then 0 else DigitsValue(s[..|s| - 1]) * 10 + DigitValue(s[|s| - 1])
  }

  function TrimStart(s: string): string
    decreases |s|
  {
    if |s| > 0 && IsWhite(s[0]) then TrimStart(s[1..]) else s
  }

  function TrimEnd(s: string): string
    decreases |s|
  {
    if |s| > 0 && IsWhite(s[|s| - 1]) then TrimEnd(s[..|s| - 1]) else s
  }

  /** `Int32.Parse` (lo, hi = the Int32 range) or `Int64.Parse`: optional
      white space, an optional sign, at least one digit, and a value in range;
      `None` where .NET throws. */
  function ParseInteger(s: string, lo: int, hi: int): Option<int>
  {
    var t := TrimEnd(TrimStart(s));
    var v: Option<int> :=
      if |t| >= 2 && t[0] == '-' && AllDigits(t[1..]) then Some(0 - (DigitsValue(t[1..]) as int))
      else if |t| >= 2 && t[0] == '+' && AllDigits(t[1..]) then Some(DigitsValue(t[1..]))
      else if |t| >= 1 && AllDigits(t) then Some(DigitsValue(t))
      else None;
    if v.Some? && lo <= v.value <= hi then v else None
  }

  function ParseInt32(s: string): (r: Option<int>)
    ensures r.Some? ==> IsInt32(r.value)
  {
    ParseInteger(s, INT32_MIN, INT32_MAX)
  }

  function ParseInt64(s: string): (r: Option<int>)
    ensures r.Some? ==> IsInt64(r.value)
  {
    ParseInteger(s, INT64_MIN, INT64_MAX)
  }

  /** `x - 1` on a C# `int` in an unchecked context: wraps at the minimum. */
  function Decrement32(x: int): (r: int)
    requires IsInt32(x)
    ensures IsInt32(r)
    ensures x > INT32_MIN ==> r == x - 1
    ensures x == INT32_MIN ==> r == INT32_MAX
  {
    if x == INT32_MIN then INT32_MAX else x - 1
  }

  // -------------------------------------------------------------- packets

  datatype Packet =
    | Rumor(bounce: int, user: string, msgID: int, date: Date, msg: string)
    | Update
    | PrivateMessage(origin: string, destination: string, date: Date, content: string)
    | FileChunkHeader(origin: string, destination: string, fileName: string,
                      bufferSize: int, chunkID: int, nbChunks: int)
    | Disconnect

  /** What the decoder makes of one line: a packet; a line whose tag and
      field count match a packet type but whose numbers or date do not
      parse ("Could not parse"); or anything else ("Could not process"). */
  datatype Decoded = Parsed(packet: Packet) | Malformed | Unrecognised

  function Tag(p: Packet): string
  {
    match p
    case Rumor(_, _, _, _, _) => RUMOR
    case Update => UPDATE
    case PrivateMessage(_, _, _, _) => PRIVATEMSG
    case FileChunkHeader(_, _, _, _, _, _) => FILETRANSFER
    case Disconnect => DISCONNECT
  }

  /** The number of '#'-separated fields of each packet type. */
  function FieldCount(p: Packet): nat
  {
    match p
    case Rumor(_, _, _, _, _) => 6
    case Update => 1
    case PrivateMessage(_, _, _, _) => 5
    case FileChunkHeader(_, _, _, _, _, _) => 7
    case Disconnect => 1
  }

  /** A packet the encoder can write so that the decoder reads it back:
      text fields free of '#', numbers within the width they are parsed at,
      dates that parse. */
  predicate WellFormed(p: Packet)
  {
    match p
    case Rumor(bounce, user, msgID, date, msg) =>
      IsInt32(bounce) && IsInt32(msgID) && SEP !in user && IsStamp(date.stamp) && SEP !in msg
    case Update => true
    case PrivateMessage(origin, destination, date, content) =>
      SEP !in origin && SEP !in destination && IsStamp(date.stamp) && SEP !in content
    case FileChunkHeader(origin, destination, fileName, bufferSize, chunkID, nbChunks) =>
      SEP !in origin && SEP !in destination && SEP !in fileName
      && IsInt32(bufferSize) && IsInt64(chunkID) && IsInt64(nbChunks)
    case Disconnect => true
  }

  /** `SendRumorAsync`'s format "{0}#{1}#{2}#{3}#{4}#{5}": the tag and the
      five arguments with '#' between them. */
  function EncodeRumor(bounce: int, user: string, msgID: int, date: Date, msg: string): string
  {
    Join([RUMOR, FormatInt(bounce), user, FormatInt(msgID), date.stamp, msg], SEP)
  }

  /** `SendPMAsync`'s format "{0}#{1}#{2}#{3}#{4}". */
  function EncodePrivateMessage(origin: string, destination: string, date: Date, content: string): string
  {
    Join([PRIVATEMSG, origin, destination, date.stamp, content], SEP)
  }

  /** `SendFileChunkAsync`'s header format "{0}#{1}#{2}#{3}#{4}#{5}#{6}". */
  function EncodeFileHeader(origin: string, destination: string, fileName: string,
                            bufferSize: int, chunkID: int, nbChunks: int): string
  {
    Join([FILETRANSFER, origin, destination, fileName,
          FormatInt(bufferSize), FormatInt(chunkID), FormatInt(nbChunks)], SEP)
  }

  function Encode(p: Packet): string
  {
    match p
    case Rumor(bounce, user, msgID, date, msg) => EncodeRumor(bounce, user, msgID, date, msg)
    case Update => UPDATE
    case PrivateMessage(origin, destination, date, content) =>
      EncodePrivateMessage(origin, destination, date, content)
    case FileChunkHeader(origin, destination, fileName, bufferSize, chunkID, nbChunks) =>
      EncodeFileHeader(origin, destination, fileName, bufferSize, chunkID, nbChunks)
    case Disconnect => DISCONNECT
  }

  /** The branches of `ListenAsync`: split on '#', then select the packet
      type by exact field count and tag, then parse its numbers and date. */
  function Decode(line: string): (r: Decoded)
    ensures r.Parsed? ==> |Split(line, SEP)| == FieldCount(r.packet)
                          && Split(line, SEP)[0] == Tag(r.packet)
    ensures r.Parsed? ==> WellFormed(r.packet)
    ensures r.Malformed? ==>
              var f := Split(line, SEP);
              (|f| == 6 && f[0] == RUMOR) || (|f| == 5 && f[0] == PRIVATEMSG)
              || (|f| == 7 && f[0] == FILETRANSFER)
  {
    var f := Split(line, SEP);
    if |f| == 6 && f[0] == RUMOR then
      var bounce, msgID, date := ParseInt32(f[1]), ParseInt32(f[3]), ParseDate(f[4]);
      if bounce.Some? && msgID.Some? && date.Some? then
        Parsed(Rumor(bounce.value, f[2], msgID.value, date.value, f[5]))
      else Malformed
    else if |f| == 1 && f[0] == UPDATE then Parsed(Update)
    else if |f| == 5 && f[0] == PRIVATEMSG then
      var date := ParseDate(f[3]);
      if date.Some? then Parsed(PrivateMessage(f[1], f[2], date.value, f[4])) else Malformed
    else if |f| == 7 && f[0] == FILETRANSFER then
      var bufferSize, chunkID, nbChunks := ParseInt32(f[4]), ParseInt64(f[5]), ParseInt64(f[6]);
      if bufferSize.Some? && chunkID.Some? && nbChunks.Some? then
        Parsed(FileChunkHeader(f[1], f[2], f[3], bufferSize.value, chunkID.value, nbChunks.value))
      else Malformed
    else if |f| == 1 && f[0] == DISCONNECT then Parsed(Disconnect)
    else Unrecognised
  }

  // --------------------------------------------------------------- lemmas

  lemma {:induction false} DigitsOfNat(n: nat)
    ensures |NatToDigits(n)| >= 1 && AllDigits(NatToDigits(n))
    ensures DigitsValue(NatToDigits(n)) == n
    decreases n
  {
    var s := NatToDigits(n);
    if n >= 10 {
      DigitsOfNat(n / 10);
      assert s[..|s| - 1] == NatToDigits(n / 10);
      assert DigitValue(s[|s| - 1]) == n % 10;
    }
  }

  lemma FormattedIsTrimmed(s: string)
    requires |s| >= 1 && !IsWhite(s[0]) && !IsWhite(s[|s| - 1])
    ensures TrimEnd(TrimStart(s)) == s
  {
  }

  /** Writing an integer and parsing it back at a width that holds it gives
      the integer. */
  lemma ParseFormatInt(n: int, lo: int, hi: int)
    requires lo <= n <= hi
    ensures ParseInteger(FormatInt(n), lo, hi) == Some(n)
  {
    var m: nat := if n < 0 then -n else n;
    DigitsOfNat(m);
    var d := NatToDigits(m);
    var s := FormatInt(n);
    if n < 0 {
      assert s == "-" + d && s[1..] == d;
      assert IsDigit(s[|s| - 1]);
    } else {
      assert s == d;
      if |s| >= 2 { assert IsDigit(s[0]); }
    }
    FormattedIsTrimmed(s);
  }

  lemma FormattedIntHasNoSeparator(n: int)
    ensures SEP !in FormatInt(n) && '\n' !in FormatInt(n)
  {
    DigitsOfNat(if n < 0 then -n else n);
  }

  /** Each encoder writes exactly the packet's fields joined with '#'. */
  lemma EncodeIsJoin(p: Packet)
    ensures Encode(p) == Join(FieldsOf(p), SEP)
  {
  }

  /** The fields an encoder writes, in order. */
  function FieldsOf(p: Packet): (f: seq<string>)
    ensures |f| == FieldCount(p) && f[0] == Tag(p)
  {
    match p
    case Rumor(bounce, user, msgID, date, msg) =>
      [RUMOR, FormatInt(bounce), user, FormatInt(msgID), date.stamp, msg]
    case Update => [UPDATE]
    case PrivateMessage(origin, destination, date, content) =>
      [PRIVATEMSG, origin, destination, date.stamp, content]
    case FileChunkHeader(origin, destination, fileName, bufferSize, chunkID, nbChunks) =>
      [FILETRANSFER, origin, destination, fileName,
       FormatInt(bufferSize), FormatInt(chunkID), FormatInt(nbChunks)]
    case Disconnect => [DISCONNECT]
  }

  /** A well-formed packet's line splits back into exactly its fields. */
  lemma SplitEncode(p: Packet)
    requires WellFormed(p)
    ensures Split(Encode(p), SEP) == FieldsOf(p)
  {
    EncodeIsJoin(p);
    match p {
      case Rumor(bounce, user, msgID, date, msg) =>
        FormattedIntHasNoSeparator(bounce);
        FormattedIntHasNoSeparator(msgID);
      case Update =>
      case PrivateMessage(origin, destination, date, content) =>
      case FileChunkHeader(origin, destination, fileName, bufferSize, chunkID, nbChunks) =>
        FormattedIntHasNoSeparator(bufferSize);
        FormattedIntHasNoSeparator(chunkID);
        FormattedIntHasNoSeparator(nbChunks);
      case Disconnect =>
    }
    SplitJoin(FieldsOf(p), SEP);
  }

  /** Every well-formed packet survives encoding and decoding; in particular
      a RUMOR is the six fields RUMOR, bounce, user, msgID, date, msg. */
  lemma DecodeEncode(p: Packet)
    requires WellFormed(p)
    ensures Split(Encode(p), SEP) == FieldsOf(p)
    ensures Decode(Encode(p)) == Parsed(p)
  {
    SplitEncode(p);
    match p {
      case Rumor(bounce, user, msgID, date, msg) => DecodeEncodeRumor(p);
      case Update =>
      case PrivateMessage(origin, destination, date, content) =>
      case FileChunkHeader(origin, destination, fileName, bufferSize, chunkID, nbChunks) =>
        DecodeEncodeFileHeader(p);
      case Disconnect =>
    }
  }

  lemma DecodeEncodeRumor(p: Packet)
    requires p.Rumor? && WellFormed(p)
    ensures Decode(Encode(p)) == Parsed(p)
  {
    SplitEncode(p);
    ParseFormatInt(p.bounce, INT32_MIN, INT32_MAX);
    ParseFormatInt(p.msgID, INT32_MIN, INT32_MAX);
  }

  lemma DecodeEncodeFileHeader(p: Packet)
    requires p.FileChunkHeader? && WellFormed(p)
    ensures Decode(Encode(p)) == Parsed(p)
  {
    SplitEncode(p);
    ParseFormatInt(p.bufferSize, INT32_MIN, INT32_MAX);
    ParseFormatInt(p.chunkID, INT64_MIN, INT64_MAX);
    ParseFormatInt(p.nbChunks, INT64_MIN, INT64_MAX);
  }

  /** A decoded packet, written again, decodes to the same packet. */
  lemma ReencodeDecoded(line: string)
    requires Decode(line).Parsed?
    ensures Decode(Encode(Decode(line).packet)) == Decode(line)
  {
    DecodeEncode(Decode(line).packet);
  }

  /** The split of a rumor whose texts may hold '#': the tag is still the
      first field, and every '#' inside a text adds one more field. */
  lemma RumorSplitShape(bounce: int, user: string, msgID: int, date: Date, msg: string)
    ensures var f := Split(EncodeRumor(bounce, user, msgID, date, msg), SEP);
            f[0] == RUMOR
            && |f| == 6 + Count(user, SEP) + Count(date.stamp, SEP) + Count(msg, SEP)
  {
    var line := EncodeRumor(bounce, user, msgID, date, msg);
    RumorSeparatorCount(bounce, user, msgID, date, msg);
    SplitLength(line, SEP);
    var t := line[|RUMOR|..];
    assert line == RUMOR + t;
    SplitPrefix(RUMOR, t, SEP);
    assert t[0] == SEP;
    assert Split(t, SEP)[0] == "";
    assert RUMOR + "" == RUMOR;
  }

  lemma RumorSeparatorCount(bounce: int, user: string, msgID: int, date: Date, msg: string)
    ensures Count(EncodeRumor(bounce, user, msgID, date, msg), SEP)
            == 5 + Count(user, SEP) + Count(date.stamp, SEP) + Count(msg, SEP)
  {
    var p := Rumor(bounce, user, msgID, date, msg);
    EncodeIsJoin(p);
    var f := FieldsOf(p);
    CountJoin(f, SEP);
    FormattedIntHasNoSeparator(bounce);
    FormattedIntHasNoSeparator(msgID);
    CountAbsent(FormatInt(bounce), SEP);
    CountAbsent(FormatInt(msgID), SEP);
    CountAbsent(RUMOR, SEP);
    assert CountAll(f[5..], SEP) == Count(msg, SEP) by { assert f[5..][1..] == []; }
    assert CountAll(f[4..], SEP) == Count(date.stamp, SEP) + CountAll(f[5..], SEP) by {
      assert f[4..][1..] == f[5..];
    }
    assert CountAll(f[3..], SEP) == CountAll(f[4..], SEP) by { assert f[3..][1..] == f[4..]; }
    assert CountAll(f[2..], SEP) == Count(user, SEP) + CountAll(f[3..], SEP) by {
      assert f[2..][1..] == f[3..];
    }
    assert CountAll(f[1..], SEP) == CountAll(f[2..], SEP) by { assert f[1..][1..] == f[2..]; }
  }

  /** A rumor whose user, date or message contains '#' splits into more
      than six fields and is not read back as any packet. */
  lemma RumorWithSeparatorIsUnrecognised(bounce: int, user: string, msgID: int, date: Date, msg: string)
    requires SEP in user || SEP in date.stamp || SEP in msg
    ensures Decode(EncodeRumor(bounce, user, msgID, date, msg)) == Unrecognised
  {
    RumorSplitShape(bounce, user, msgID, date, msg);
    if SEP in user { CountPositive(user, SEP); }
    if SEP in date.stamp { CountPositive(date.stamp, SEP); }
    if SEP in msg { CountPositive(msg, SEP); }
  }

  lemma {:induction false} CountPositive(s: string, c: char)
    requires c in s
    ensures Count(s, c) >= 1
    decreases |s|
  {
    if s[0] != c {
      assert c in s[1..] by {
        var i :| 0 <= i < |s| && s[i] == c;
        assert s[1..][i - 1] == c;
      }
      CountPositive(s[1..], c);
    }
  }

  /** A line is a packet of some type only if its split has exactly that
      type's field count and its first field is that type's tag; a DISC
      packet is exactly the line "DISC". */
  lemma DisconnectIsExactLine(line: string)
    ensures Decode(line) == Parsed(Disconnect) <==> line == DISCONNECT
  {
    if Decode(line) == Parsed(Disconnect) {
      JoinSplit(line, SEP);
    }
    if line == DISCONNECT {
      SplitNoSeparator(line, SEP);
    }
  }

  /** Likewise an UPDATE request is exactly the line "UPDATE". */
  lemma UpdateIsExactLine(line: string)
    ensures Decode(line) == Parsed(Update) <==> line == UPDATE
  {
    if Decode(line) == Parsed(Update) {
      JoinSplit(line, SEP);
    }
    if line == UPDATE {
      SplitNoSeparator(line, SEP);
    }
  }

  /** A line whose field count and tag select a packet type but whose
      number or date does not parse is "Could not parse": for a rumor, a
      bad bounce, msgID or date; for a file header, a bad bufferSize,
      chunkID or nbChunks. */
  lemma UnparsedFieldIsMalformed(line: string)
    requires var f := Split(line, SEP);
             (|f| == 6 && f[0] == RUMOR
              && (ParseInt32(f[1]).None? || ParseInt32(f[3]).None? || ParseDate(f[4]).None?))
             || (|f| == 5 && f[0] == PRIVATEMSG && ParseDate(f[3]).None?)
             || (|f| == 7 && f[0] == FILETRANSFER
                 && (ParseInt32(f[4]).None? || ParseInt64(f[5]).None? || ParseInt64(f[6]).None?))
    ensures Decode(line) == Malformed
  {
  }

  /** Text without digits is not a number. */
  lemma NoDigitsIsNotANumber(s: string, lo: int, hi: int)
    requires forall i :: 0 <= i < |s| ==> !IsDigit(s[i])
    ensures ParseInteger(s, lo, hi) == None
  {
    TrimmedIsInfix(s);
  }

  lemma TrimmedIsInfix(s: string)
    ensures exists a, b :: 0 <= a <= b <= |s| && TrimEnd(TrimStart(s)) == s[a..b]
  {
    TrimStartIsSuffix(s);
    var a :| 0 <= a <= |s| && TrimStart(s) == s[a..];
    TrimEndIsPrefix(s[a..]);
    var b :| 0 <= b <= |s[a..]| && TrimEnd(s[a..]) == s[a..][..b];
    assert s[a..][..b] == s[a..a + b];
  }

  lemma {:induction false} TrimStartIsSuffix(s: string)
    ensures exists a :: 0 <= a <= |s| && TrimStart(s) == s[a..]
    decreases |s|
  {
    if |s| > 0 && IsWhite(s[0]) {
      TrimStartIsSuffix(s[1..]);
      var a :| 0 <= a <= |s[1..]| && TrimStart(s[1..]) == s[1..][a..];
      assert s[1..][a..] == s[a + 1..];
    } else {
      assert s[0..] == s;
    }
  }

  lemma {:induction false} TrimEndIsPrefix(s: string)
    ensures exists b :: 0 <= b <= |s| && TrimEnd(s) == s[..b]
    decreases |s|
  {
    if |s| > 0 && IsWhite(s[|s| - 1]) {
      TrimEndIsPrefix(s[..|s| - 1]);
      var b :| 0 <= b <= |s| - 1 && TrimEnd(s[..|s| - 1]) == s[..|s| - 1][..b];
      assert s[..|s| - 1][..b] == s[..b];
    } else {
      assert s[..|s|] == s;
    }
  }
}
