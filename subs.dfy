/**
 * subs.go: collecting the "@SBT" subtitle records of a file by language,
 * and rendering them as SubRip text (parseTime, SubsToSrt) or as the plain
 * "start, end, text" format (SubsToTxt).
 */
module Subs {
  import opened Bytes
  import opened GoIo
  import opened ChunkLayout
  import opened TableTypes
  import opened Parser
  import opened ChunkStream
  import opened Remux

  // ---------------------------------------------------------------------
  // Decimal text: strconv.Itoa / FormatUint and fmt's zero-padded %0Nd

  predicate IsDigit(b: byte) {
    0x30 <= b <= 0x39
  }

  predicate AllDigits(s: seq<byte>) {
    forall i | 0 <= i < |s| :: IsDigit(s[i])
  }

  function DigitChar(d: nat): (r: byte)
    requires d < 10
    ensures IsDigit(r) && r - 0x30 == d
  {
    0x30 + d
  }

  /** The number a run of decimal digits spells. */
  function DigitsValue(s: seq<byte>): nat
    requires AllDigits(s)
  {
    if s == [] then 0 else DigitsValue(s[..|s| - 1]) * 10 + (s[|s| - 1] - 0x30)
  }

  /** strconv.Itoa of a non-negative number: its decimal digits. */
  function Decimal(n: nat): (r: seq<byte>)
    ensures 1 <= |r|
    decreases n
  {
    if n < 10 then [DigitChar(n)] else Decimal(n / 10) + [DigitChar(n % 10)]
  }

  /** The digits of `n` spell `n` again, with no leading zero. */
  lemma {:induction false} DecimalSpells(n: nat)
    ensures var r := Decimal(n);
      AllDigits(r) && DigitsValue(r) == n && (|r| > 1 ==> r[0] != 0x30)
    decreases n
  {
    if n >= 10 {
      DecimalSpells(n / 10);
      var high := Decimal(n / 10);
      var r := Decimal(n);
      assert r[..|r| - 1] == high;
    }
  }

  function Pow10(k: nat): (r: nat)
    ensures r >= 1
  {
    if k == 0 then 1 else 10 * Pow10(k - 1)
  }

  /** A number below 10^k takes at most k digits. */
  lemma {:induction false} DecimalLength(n: nat, k: nat)
    requires 1 <= k && n < Pow10(k)
    ensures |Decimal(n)| <= k
    decreases n
  {
    if n >= 10 {
      DecimalLength(n / 10, k - 1);
    }
  }

  /** `k` copies of the digit zero. */
  function ZeroDigits(k: nat): (r: seq<byte>)
    ensures |r| == k && forall i | 0 <= i < k :: r[i] == 0x30
  {
    seq(k, _ => 0x30)
  }

  /** Zeros in front do not change the value. */
  lemma {:induction false} LeadingZeros(k: nat, d: seq<byte>)
    requires AllDigits(d)
    ensures AllDigits(ZeroDigits(k) + d) && DigitsValue(ZeroDigits(k) + d) == DigitsValue(d)
    decreases |d|
  {
    var z := ZeroDigits(k);
    if d == [] {
      assert z + d == z;
      ZerosSpellZero(k);
    } else {
      var d' := d[..|d| - 1];
      assert (z + d)[..|z + d| - 1] == z + d';
      LeadingZeros(k, d');
    }
  }

  lemma {:induction false} ZerosSpellZero(k: nat)
    ensures AllDigits(ZeroDigits(k)) && DigitsValue(ZeroDigits(k)) == 0
  {
    if k > 0 {
      assert ZeroDigits(k)[..k - 1] == ZeroDigits(k - 1);
      ZerosSpellZero(k - 1);
    }
  }

  /** fmt's %0<w>d of a non-negative number: zeros in front up to width w. */
  function ZeroPad(n: nat, w: nat): (r: seq<byte>)
    ensures |r| == Max(w, |Decimal(n)|)
  {
    var d := Decimal(n);
    ZeroDigits(if w > |d| then w - |d| else 0) + d
  }

  /** The padded digits still spell `n`. */
  lemma ZeroPadSpells(n: nat, w: nat)
    ensures AllDigits(ZeroPad(n, w)) && DigitsValue(ZeroPad(n, w)) == n
  {
    var d := Decimal(n);
    DecimalSpells(n);
    LeadingZeros(if w > |d| then w - |d| else 0, d);
  }

  // ---------------------------------------------------------------------
  // parseTime

  /** A time split into hours, minutes, seconds and milliseconds. */
  datatype Clock = Clock(hours: nat, minutes: nat, seconds: nat, millis: nat)

  function ClockValue(c: Clock): nat {
    c.hours * 3600000 + c.minutes * 60000 + c.seconds * 1000 + c.millis
  }

  predicate ClockNormal(c: Clock) {
    c.minutes < 60 && c.seconds < 60 && c.millis < 1000
  }

  /** parseTime's arithmetic on `t` milliseconds. */
  function SplitTime(t: nat): (c: Clock)
    ensures ClockNormal(c) && ClockValue(c) == t
  {
    var secs := t / 1000;
    var mins := secs / 60;
    var c := Clock(mins / 60, mins % 60, secs % 60, t % 1000);
    assert t == secs * 1000 + t % 1000;
    assert secs == mins * 60 + secs % 60;
    assert mins == (mins / 60) * 60 + mins % 60;
    c
  }

  /** The split is the only normal one: a normal clock splits back to itself. */
  lemma SplitTimeUnique(c: Clock)
    requires ClockNormal(c)
    ensures SplitTime(ClockValue(c)) == c
  {
    var t := ClockValue(c);
    var mins := c.hours * 60 + c.minutes;
    var secs := mins * 60 + c.seconds;
    assert t == secs * 1000 + c.millis;
    DivModUnique(t, secs, c.millis, 1000);
    DivModUnique(secs, mins, c.seconds, 60);
    DivModUnique(mins, c.hours, c.minutes, 60);
  }

  lemma DivModUnique(a: nat, q: nat, r: nat, d: nat)
    requires 0 <= r < d && a == q * d + r
    ensures a / d == q && a % d == r
  {
    var q', r' := a / d, a % d;
    var k := q - q';
    assert k * d == r' - r by {
      assert a == q' * d + r';
      assert k * d == q * d - q' * d;
    }
    if k >= 1 {
      assert false;
    } else if k <= -1 {
      assert false;
    }
  }

  const Colon: byte := 0x3A
  const Comma: byte := 0x2C

  /** parseTime: "%02d:%02d:%02d,%03d" of hours, minutes, seconds and milliseconds. */
  function FormatTime(t: nat): (r: seq<byte>)
    ensures |r| >= 12
  {
    var c := SplitTime(t);
    ZeroPad(c.hours, 2) + [Colon] + ZeroPad(c.minutes, 2) + [Colon] + ZeroPad(c.seconds, 2) + [Comma] + ZeroPad(c.millis, 3)
  }

  /** Reads a rendered time back; the hours are everything in front of the last ten characters. */
  function ReadTime(s: seq<byte>): (r: Option<nat>)
  {
    if |s| < 12 then None
    else
      var n := |s|;
      var h, m, sec, ms := s[..n - 10], s[n - 9..n - 7], s[n - 6..n - 4], s[n - 3..];
      if AllDigits(h) && AllDigits(m) && AllDigits(sec) && AllDigits(ms)
        && s[n - 10] == Colon && s[n - 7] == Colon && s[n - 4] == Comma
      then Some(ClockValue(Clock(DigitsValue(h), DigitsValue(m), DigitsValue(sec), DigitsValue(ms))))
      else None
  }

  /** The rendered time is exactly HH:MM:SS,mmm with at least two hour digits, and it spells `t`. */
  lemma FormatTimeRoundTrip(t: nat)
    ensures ReadTime(FormatTime(t)) == Some(t)
  {
    var c := SplitTime(t);
    DecimalLength(c.minutes, 2);
    DecimalLength(c.seconds, 2);
    DecimalLength(c.millis, 3);
    ZeroPadSpells(c.hours, 2);
    ZeroPadSpells(c.minutes, 2);
    ZeroPadSpells(c.seconds, 2);
    ZeroPadSpells(c.millis, 3);
    TimeLayout(ZeroPad(c.hours, 2), ZeroPad(c.minutes, 2), ZeroPad(c.seconds, 2), ZeroPad(c.millis, 3));
  }

  /** Where the fields sit in "h:mm:ss,mmm". */
  lemma TimeLayout(h: seq<byte>, m: seq<byte>, s: seq<byte>, ms: seq<byte>)
    requires |h| >= 2 && |m| == 2 && |s| == 2 && |ms| == 3
    ensures var r := h + [Colon] + m + [Colon] + s + [Comma] + ms;
      var n := |r|;
      n >= 12 && r[..n - 10] == h && r[n - 10] == Colon && r[n - 9..n - 7] == m && r[n - 7] == Colon
      && r[n - 6..n - 4] == s && r[n - 4] == Comma && r[n - 3..] == ms
  {
  }

  // ---------------------------------------------------------------------
  // SubsToSrt and SubsToTxt

  const CRLF: seq<byte> := [0x0D, 0x0A]
  /** " --> " */
  const Arrow: seq<byte> := [0x20, 0x2D, 0x2D, 0x3E, 0x20]
  /** ", " */
  const Separator: seq<byte> := [0x2C, 0x20]

  /** FrameTime + FrameEnd, added as uint32 values. */
  function EndTime(h: SubtitleHeader): (r: uint32)
    ensures h.frameTime + h.frameEnd < TwoTo32 ==> r == h.frameTime + h.frameEnd
  {
    U32(h.frameTime + h.frameEnd)
  }

  /** One SubRip block: its number, the start and end times, the text. */
  function SrtBlock(s: Subtitle, index: nat): seq<byte> {
    Decimal(index) + CRLF + FormatTime(s.header.frameTime) + Arrow + FormatTime(EndTime(s.header)) + CRLF
      + s.text + CRLF
  }

  /** The SubRip text of one language, built record by record: the i-th record gets number i + 1. */
  function Srt(subs: seq<Subtitle>): seq<byte>
  {
    if subs == [] then [] else Srt(subs[..|subs| - 1]) + SrtBlock(subs[|subs| - 1], |subs|)
  }

  /** The blocks of `subs`, first record first, numbered from `k`. */
  function SrtFrom(subs: seq<Subtitle>, k: nat): seq<byte>
  {
    if subs == [] then [] else SrtBlock(subs[0], k) + SrtFrom(subs[1..], k + 1)
  }

  /** Rendering two runs of records is rendering the first, then the second numbered on from it. */
  lemma {:induction false} SrtSplit(a: seq<Subtitle>, b: seq<Subtitle>)
    ensures Srt(a + b) == Srt(a) + SrtFrom(b, |a| + 1)
    decreases |b|
  {
    if b == [] {
      assert a + b == a;
      AppendEmpty(Srt(a));
    } else {
      var a' := a + [b[0]];
      assert a + b == a' + b[1..];
      assert a'[..|a'| - 1] == a;
      assert Srt(a') == Srt(a) + SrtBlock(b[0], |a| + 1);
      assert SrtFrom(b, |a| + 1) == SrtBlock(b[0], |a| + 1) + SrtFrom(b[1..], |a'| + 1);
      SrtSplit(a', b[1..]);
      assert Srt(a + b) == Srt(a) + SrtBlock(b[0], |a| + 1) + SrtFrom(b[1..], |a'| + 1);
      Assoc(Srt(a), SrtBlock(b[0], |a| + 1), SrtFrom(b[1..], |a'| + 1));
    }
  }

  /** Blocks are numbered 1, 2, 3, ... in record order. */
  lemma SrtNumberedFromOne(subs: seq<Subtitle>)
    ensures Srt(subs) == SrtFrom(subs, 1)
  {
    var none: seq<Subtitle> := [];
    SrtSplit(none, subs);
    assert none + subs == subs;
    assert Srt(none) == [];
    AppendEmpty(SrtFrom(subs, 1));
    assert Srt(subs) == Srt(none) + SrtFrom(subs, 1);
  }

  /** The inner loop of SubsToSrt for one language. */
  method WriteSrt(subs: seq<Subtitle>) returns (b: seq<byte>)
    ensures b == Srt(subs)
  {
    b := [];
    for i := 0 to |subs|
      invariant b == Srt(subs[..i])
    {
      assert subs[..i + 1][..i] == subs[..i];
      var sub := subs[i];
      var block := Decimal(i + 1);
      block := block + CRLF;
      block := block + FormatTime(sub.header.frameTime);
      block := block + Arrow;
      block := block + FormatTime(EndTime(sub.header));
      block := block + CRLF;
      block := block + sub.text;
      block := block + CRLF;
      b := b + block;
    }
    assert subs[..|subs|] == subs;
  }

  /** SubsToSrt: one SubRip text per language, and no other entry. */
  method SubsToSrt(src: map<string, seq<Subtitle>>) returns (result: map<string, seq<byte>>)
    ensures result == map l | l in src :: Srt(src[l])
  {
    result := map[];
    var todo := src.Keys;
    while todo != {}
      invariant todo <= src.Keys
      invariant result == map l | l in src.Keys - todo :: Srt(src[l])
      decreases |todo|
    {
      var lang :| lang in todo;
      var b := WriteSrt(src[lang]);
      result := result[lang := b];
      todo := todo - {lang};
    }
  }

  /** The first line of a plain-text file: the display interval, always 1000 ms. */
  function Interval(): (r: seq<byte>)
    ensures r == [0x31, 0x30, 0x30, 0x30] + CRLF
  {
    assert Decimal(1) == [0x31];
    assert Decimal(10) == [0x31, 0x30];
    assert Decimal(100) == [0x31, 0x30, 0x30];
    Decimal(1000) + CRLF
  }

  /** One plain-text entry: start, end and text, with no line break after it. */
  function TxtEntry(s: Subtitle): seq<byte> {
    Decimal(s.header.frameTime) + Separator + Decimal(EndTime(s.header)) + Separator + s.text
  }

  function TxtEntries(subs: seq<Subtitle>): seq<byte>
  {
    if subs == [] then [] else TxtEntries(subs[..|subs| - 1]) + TxtEntry(subs[|subs| - 1])
  }

  /** The plain text of one language: the interval line once, then every entry. */
  function Txt(subs: seq<Subtitle>): seq<byte> {
    if subs == [] then [] else Interval() + TxtEntries(subs)
  }

  lemma {:induction false} TxtEntriesSplit(a: seq<Subtitle>, b: seq<Subtitle>)
    ensures TxtEntries(a + b) == TxtEntries(a) + TxtEntries(b)
    decreases |b|
  {
    if b == [] {
      assert a + b == a;
      AppendEmpty(TxtEntries(a));
    } else {
      var b' := b[..|b| - 1];
      assert (a + b)[..|a + b| - 1] == a + b';
      assert (a + b)[|a + b| - 1] == b[|b| - 1];
      TxtEntriesSplit(a, b');
      Assoc(TxtEntries(a), TxtEntries(b'), TxtEntry(b[|b| - 1]));
    }
  }

  /** More records add entries only: the interval line is not repeated. */
  lemma TxtAppend(a: seq<Subtitle>, b: seq<Subtitle>)
    requires a != []
    ensures Txt(a + b) == Txt(a) + TxtEntries(b)
  {
    TxtEntriesSplit(a, b);
    Assoc(Interval(), TxtEntries(a), TxtEntries(b));
  }

  /** The inner loop of SubsToTxt for one language. */
  method WriteTxt(subs: seq<Subtitle>) returns (b: seq<byte>)
    ensures b == Txt(subs)
  {
    b := [];
    for i := 0 to |subs|
      invariant b == Txt(subs[..i])
    {
      assert subs[..i + 1][..i] == subs[..i];
      var sub := subs[i];
      if i == 0 {
        b := b + Decimal(1000);
        b := b + CRLF;
      }
      var entry := Decimal(sub.header.frameTime);
      entry := entry + Separator;
      entry := entry + Decimal(EndTime(sub.header));
      entry := entry + Separator;
      entry := entry + sub.text;
      if i == 0 {
        assert TxtEntries(subs[..1]) == TxtEntries([]) + entry;
        AppendEmpty(entry);
      } else {
        Assoc(Interval(), TxtEntries(subs[..i]), entry);
      }
      b := b + entry;
    }
    assert subs[..|subs|] == subs;
  }

  /** SubsToTxt: one plain text per language. */
  method SubsToTxt(src: map<string, seq<Subtitle>>) returns (result: map<string, seq<byte>>)
    ensures result == map l | l in src :: Txt(src[l])
  {
    result := map[];
    var todo := src.Keys;
    while todo != {}
      invariant todo <= src.Keys
      invariant result == map l | l in src.Keys - todo :: Txt(src[l])
      decreases |todo|
    {
      var lang :| lang in todo;
      var b := WriteTxt(src[lang]);
      result := result[lang := b];
      todo := todo - {lang};
    }
  }

  // ---------------------------------------------------------------------
  // GetSubs

  /** The subtitles of each language, and the error the collection stopped with. */
  datatype SubsResult = SubsResult(subs: map<string, seq<Subtitle>>, err: Option<Error>)

  /** GetSubs keeps "@SBT" chunks of the Stream payload type; headers and other streams are skipped. */
  predicate IsSubtitleChunk(c: Chunk) {
    c.header.id == SBT && c.payloadHeader.payloadType == PayloadTypeStream
  }

  /** A Go map read: a missing language reads as the empty slice. */
  function Lookup(m: map<string, seq<Subtitle>>, l: string): (r: seq<Subtitle>)
    ensures l !in m ==> r == []
  {
    if l in m then m[l] else []
  }

  /**
   * The body of GetSubs's loop over chunks already read: each subtitle chunk
   * is decoded and appended to the slice of its language (named by `lang`,
   * GetLang in subs.go); the first record that does not decode ends the
   * collection with that error and the records gathered so far.
   */
  function GroupFrom(cs: seq<Chunk>, lang: SubtitleHeader -> string, subs: map<string, seq<Subtitle>>): (r: SubsResult)
    ensures subs.Keys <= r.subs.Keys
    decreases |cs|
  {
    if cs == [] then SubsResult(subs, None)
    else if !IsSubtitleChunk(cs[0]) then GroupFrom(cs[1..], lang, subs)
    else
      var s := ReadSubtitleSpec(cs[0].payload);
      if s.err.Some? then SubsResult(subs, s.err)
      else
        var l := lang(s.subtitle.header);
        GroupFrom(cs[1..], lang, subs[l := Lookup(subs, l) + [s.subtitle]])
  }

  /**
   * GetSubs from cursor `pos` with `subs` gathered so far: a record that does
   * not decode stops it first; otherwise the chunk loop's own end decides
   * (None for a clean io.EOF).
   */
  function SubsFrom(data: seq<byte>, pos: nat, isFile: bool, lang: SubtitleHeader -> string,
                    subs: map<string, seq<Subtitle>>): (r: SubsResult)
    ensures subs.Keys <= r.subs.Keys
  {
    var cl := ChunksFrom(data, pos, isFile);
    var g := GroupFrom(cl.chunks, lang, subs);
    if g.err.Some? then g else SubsResult(g.subs, cl.err)
  }

  /** GetSubs over a reader with cursor `pos`. */
  method GetSubs(src: Reader, lang: SubtitleHeader -> string) returns (subs: map<string, seq<Subtitle>>, err: Option<Error>)
    modifies src
    ensures SubsResult(subs, err) == SubsFrom(src.data, old(src.pos), src.isFile, lang, map[])
  {
    subs := map[];
    while true
      invariant SubsFrom(src.data, src.pos, src.isFile, lang, subs) == SubsFrom(src.data, old(src.pos), src.isFile, lang, map[])
      decreases |src.data| - src.pos
    {
      ghost var p := src.pos;
      var c;
      c, err := ReadChunk(src);
      if err.Some? {
        if err == Some(EOF) {
          err := None;
        }
        return;
      }
      ChunksFromStep(src.data, p, src.isFile);
      ghost var tail := ChunksFrom(src.data, src.pos, src.isFile).chunks;
      assert ([c] + tail)[1..] == tail;
      if c.header.id != SBT {
        continue;
      }
      if c.payloadHeader.payloadType != PayloadTypeStream {
        continue;
      }
      var sub;
      sub, err := ReadSubtitleData(c.payload);
      if err.Some? {
        return;
      }
      var l := lang(sub.header);
      subs := subs[l := Lookup(subs, l) + [sub]];
    }
  }

  /** The subtitles of the subtitle chunks among `cs`, in order, as ReadSubtitleData decodes them. */
  function Subtitles(cs: seq<Chunk>): (r: seq<Subtitle>)
    ensures |r| <= |cs|
  {
    if cs == [] then []
    else (if IsSubtitleChunk(cs[0]) then [ReadSubtitleSpec(cs[0].payload).subtitle] else []) + Subtitles(cs[1..])
  }

  /** The records of language `l`, in order. */
  function InLanguage(ss: seq<Subtitle>, lang: SubtitleHeader -> string, l: string): (r: seq<Subtitle>)
    ensures forall s | s in r :: s in ss && lang(s.header) == l
  {
    if ss == [] then []
    else (if lang(ss[0].header) == l then [ss[0]] else []) + InLanguage(ss[1..], lang, l)
  }

  /**
   * When every record decodes, each language's slice grows by exactly that
   * language's records in stream order, and a language appears as a key
   * only if it was there already or has a record.
   */
  lemma {:induction false} GroupFromContents(cs: seq<Chunk>, lang: SubtitleHeader -> string,
                                             subs: map<string, seq<Subtitle>>, l: string)
    requires GroupFrom(cs, lang, subs).err.None?
    ensures forall c | c in cs && IsSubtitleChunk(c) :: ReadSubtitleSpec(c.payload).err.None?
    ensures Lookup(GroupFrom(cs, lang, subs).subs, l) == Lookup(subs, l) + InLanguage(Subtitles(cs), lang, l)
    ensures l in GroupFrom(cs, lang, subs).subs <==> l in subs || InLanguage(Subtitles(cs), lang, l) != []
    decreases |cs|
  {
    if cs == [] {
      AppendEmpty(Lookup(subs, l));
    } else {
      var rest := cs[1..];
      assert forall c | c in cs :: c == cs[0] || c in rest;
      if !IsSubtitleChunk(cs[0]) {
        GroupFromContents(rest, lang, subs, l);
        assert Subtitles(cs) == Subtitles(rest);
      } else {
        var s := ReadSubtitleSpec(cs[0].payload).subtitle;
        var k := lang(s.header);
        var subs' := subs[k := Lookup(subs, k) + [s]];
        GroupFromContents(rest, lang, subs', l);
        assert Subtitles(cs) == [s] + Subtitles(rest);
        assert ([s] + Subtitles(rest))[1..] == Subtitles(rest);
        if k == l {
          Assoc(Lookup(subs, l), [s], InLanguage(Subtitles(rest), lang, l));
        }
      }
    }
  }

  /** The first record that does not decode is the one whose error GroupFrom reports. */
  lemma {:induction false} GroupFromError(cs: seq<Chunk>, lang: SubtitleHeader -> string,
                                          subs: map<string, seq<Subtitle>>)
    requires GroupFrom(cs, lang, subs).err.Some?
    ensures exists c | c in cs && IsSubtitleChunk(c) :: ReadSubtitleSpec(c.payload).err == GroupFrom(cs, lang, subs).err
    decreases |cs|
  {
    var s := ReadSubtitleSpec(cs[0].payload);
    if !IsSubtitleChunk(cs[0]) {
      GroupFromError(cs[1..], lang, subs);
    } else if s.err.None? {
      var k := lang(s.subtitle.header);
      GroupFromError(cs[1..], lang, subs[k := Lookup(subs, k) + [s.subtitle]]);
    }
  }

  /**
   * GetSubs from the start of a file that reads cleanly to io.EOF and whose
   * records all decode: each language maps to exactly its records, in file order.
   */
  lemma GetSubsContents(data: seq<byte>, isFile: bool, lang: SubtitleHeader -> string, l: string)
    requires SubsFrom(data, 0, isFile, lang, map[]).err.None?
    ensures var cs := ChunksFrom(data, 0, isFile).chunks;
      && ChunksFrom(data, 0, isFile).err.None?
      && (forall c | c in cs && IsSubtitleChunk(c) :: ReadSubtitleSpec(c.payload).err.None?)
      && Lookup(SubsFrom(data, 0, isFile, lang, map[]).subs, l) == InLanguage(Subtitles(cs), lang, l)
      && (l in SubsFrom(data, 0, isFile, lang, map[]).subs <==> InLanguage(Subtitles(cs), lang, l) != [])
  {
    var cs := ChunksFrom(data, 0, isFile).chunks;
    GroupFromContents(cs, lang, map[], l);
    AppendEmpty(InLanguage(Subtitles(cs), lang, l));
  }
}
