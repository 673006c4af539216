/** The pure helpers of the host upload tool, `tools/upload_firmware.py`:
    HEX-file line filtering, reply classification, version-field extraction,
    the counters of the record loop and the argument check of the repeat
    loop; and how they read what the firmware sends. */
module UploadTool {
  import opened Ascii
  import opened HexRecord
  import opened Persistent
  import opened Engine

  datatype Option<T> = None | Some(value: T)

  // ---------------------------------------------------------------------
  // Python's str.strip()

  /** Python's `str.isspace` for one character. */
  predicate IsSpace(c: char)
  {
    var n := c as int;
    || n == 0x20 || 0x09 <= n <= 0x0D || 0x1C <= n <= 0x1F || n == 0x85 || n == 0xA0 || n == 0x1680
    || 0x2000 <= n <= 0x200A || n == 0x2028 || n == 0x2029 || n == 0x202F || n == 0x205F || n == 0x3000
  }

  predicate AllSpace(s: string)
  {
    forall k :: 0 <= k < |s| ==> IsSpace(s[k])
  }

  /** Where the text starts once the whitespace from `i` on is skipped. */
  function SkipSpaces(s: string, i: nat): (j: nat)
    requires i <= |s|
    ensures i <= j <= |s|
    ensures forall k :: i <= k < j ==> IsSpace(s[k])
    ensures j == |s| || !IsSpace(s[j])
    decreases |s| - i
  {
    if i == |s| || !IsSpace(s[i]) then i else SkipSpaces(s, i + 1)
  }

  /** Where the text ends once the whitespace before `j`, down to `lo`, is
      dropped. */
  function TrimSpaces(s: string, lo: nat, j: nat): (e: nat)
    requires lo <= j <= |s|
    ensures lo <= e <= j
    ensures forall k :: e <= k < j ==> IsSpace(s[k])
    ensures e == lo || !IsSpace(s[e - 1])
    decreases j - lo
  {
    if j == lo || !IsSpace(s[j - 1]) then j else TrimSpaces(s, lo, j - 1)
  }

  /** `s.strip()`: the leading whitespace goes, then the trailing. */
  function Strip(s: string): string
  {
    var start := SkipSpaces(s, 0);
    s[start..TrimSpaces(s, start, |s|)]
  }

  /** `strip` keeps exactly the text between leading and trailing
      whitespace, whatever whitespace surrounds it. */
  lemma StripOf(a: string, t: string, b: string)
    requires AllSpace(a) && AllSpace(b)
    requires t == [] || (!IsSpace(t[0]) && !IsSpace(t[|t| - 1]))
    ensures Strip(a + t + b) == t
  {
    var s := a + t + b;
    var start := SkipSpaces(s, 0);
    var end := TrimSpaces(s, start, |s|);
    forall k | 0 <= k < |s| && !(|a| <= k < |a| + |t|)
      ensures IsSpace(s[k])
    {
      if k < |a| {
        assert s[k] == a[k];
      } else {
        assert s[k] == b[k - |a| - |t|];
      }
    }
    if t == [] {
      assert start == |s| && end == |s|;
    } else {
      assert s[|a|] == t[0];
      assert s[|a| + |t| - 1] == t[|t| - 1];
      assert start == |a|;
      assert end == |a| + |t|;
      assert s[|a|..|a| + |t|] == t;
    }
  }

  /** Stripping twice strips nothing more. */
  lemma StripIdempotent(s: string)
    ensures Strip(Strip(s)) == Strip(s)
  {
    var start := SkipSpaces(s, 0);
    var end := TrimSpaces(s, start, |s|);
    var t := s[start..end];
    if t != [] {
      assert t[0] == s[start];
      assert t[|t| - 1] == s[end - 1];
    }
    StripOf([], t, []);
    assert [] + t + [] == t;
  }

  // ---------------------------------------------------------------------
  // parse_hex_file

  predicate IsRecordLine(line: string)
  {
    |line| > 0 && line[0] == ':'
  }

  /** The records `parse_hex_file` keeps from the lines of the file: each
      line stripped, kept when it starts with `:`, in file order. */
  function HexLines(lines: seq<string>): seq<string>
  {
    if lines == [] then []
    else
      var line := Strip(lines[|lines| - 1]);
      if IsRecordLine(line) then HexLines(lines[..|lines| - 1]) + [line]
      else HexLines(lines[..|lines| - 1])
  }

  /** `parse_hex_file`, on the lines Python's text mode yields for the file. */
  method ParseHexFile(lines: seq<string>) returns (records: seq<string>)
    ensures records == HexLines(lines)
  {
    records := [];
    var i := 0;
    while i < |lines|
      invariant i <= |lines| && records == HexLines(lines[..i])
    {
      assert lines[..i + 1][..i] == lines[..i];
      var line := Strip(lines[i]);
      if IsRecordLine(line) {
        records := records + [line];
      }
      i := i + 1;
    }
    assert lines[..i] == lines;
  }

  /** The filter works line by line, keeping the file's order. */
  lemma {:induction false} HexLinesAppend(a: seq<string>, b: seq<string>)
    ensures HexLines(a + b) == HexLines(a) + HexLines(b)
    decreases |b|
  {
    if b == [] {
      assert a + b == a;
    } else {
      var b0 := b[..|b| - 1];
      assert (a + b)[..|a + b| - 1] == a + b0;
      assert (a + b)[|a + b| - 1] == b[|b| - 1];
      HexLinesAppend(a, b0);
    }
  }

  /** One line of the file is kept, stripped, exactly when it starts with
      `:` once stripped. */
  lemma HexLinesOfLine(line: string)
    ensures HexLines([line]) == if IsRecordLine(Strip(line)) then [Strip(line)] else []
  {
    assert [line][..0] == [];
  }

  /** Every record kept starts with `:` and carries no surrounding
      whitespace, and there are no more records than lines. */
  lemma {:induction false} HexLinesShape(lines: seq<string>)
    ensures var records := HexLines(lines);
      && |records| <= |lines|
      && forall k :: 0 <= k < |records| ==> IsRecordLine(records[k]) && Strip(records[k]) == records[k]
    decreases |lines|
  {
    if lines != [] {
      HexLinesShape(lines[..|lines| - 1]);
      StripIdempotent(lines[|lines| - 1]);
    }
  }

  /** A record line a HEX-file writer emits reaches the upload list intact,
      whatever whitespace and line ending surround it in the file. */
  lemma EncodedRecordKept(r: Record, before: string, after: string)
    requires r.address < 0x1_0000 && r.kind < 256 && r.checksum < 256 && |r.data| < 256
    requires forall i :: 0 <= i < |r.data| ==> r.data[i] < 256
    requires AllSpace(before) && AllSpace(after)
    ensures HexLines([before + Encode(r) + after]) == [Encode(r)]
  {
    var line := Encode(r);
    assert line[0] == START_CODE;
    assert IsHexDigit(line[|line| - 1]);
    StripOf(before, line, after);
    HexLinesOfLine(before + line + after);
  }

  // ---------------------------------------------------------------------
  // Replies

  /** What `send_command` returns for a reply: success and text. */
  datatype Reply = Reply(ok: bool, text: string)

  /** The classification by the reply's first character. */
  function ClassifyReply(response: string): Reply
  {
    if |response| > 0 && response[0] == '+' then Reply(true, response[1..])
    else if |response| > 0 && response[0] == '-' then Reply(false, response[1..])
    else if |response| > 0 && response[0] == '?' then Reply(false, "Unknown command")
    else Reply(true, response)
  }

  /** `readline()`: up to and including the first line feed. */
  function ReadLine(stream: string): (line: string)
    ensures |line| <= |stream| && line == stream[..|line|]
    ensures forall k :: 0 <= k < |line| - 1 ==> line[k] != '\n'
    ensures line == stream || (line != [] && line[|line| - 1] == '\n')
  {
    if stream == [] then []
    else if stream[0] == '\n' then "\n"
    else [stream[0]] + ReadLine(stream[1..])
  }

  /** `decode('ascii', errors='ignore')`: bytes above 127 are dropped. */
  function AsciiOnly(s: string): (r: string)
    ensures |r| <= |s|
    ensures forall k :: 0 <= k < |r| ==> r[k] as int < 128
  {
    if s == [] then []
    else if s[0] as int < 128 then [s[0]] + AsciiOnly(s[1..])
    else AsciiOnly(s[1..])
  }

  /** The response `send_command` reads from the bytes the device sent. */
  function ReceivedResponse(stream: string): string
  {
    Strip(AsciiOnly(ReadLine(stream)))
  }

  /** Printable ASCII: what the firmware's reply texts are made of. */
  predicate Printable(s: string)
  {
    forall k :: 0 <= k < |s| ==> 0x20 <= s[k] as int < 0x7F
  }

  lemma {:induction false} ReadLineStopsAtLf(text: string, later: string)
    requires Printable(text)
    ensures ReadLine(text + "\r\n" + later) == text + "\r\n"
    decreases |text|
  {
    if text == [] {
      assert text + "\r\n" + later == "\r\n" + later;
      assert ("\r\n" + later)[1..] == "\n" + later;
    } else {
      assert (text + "\r\n" + later)[1..] == text[1..] + "\r\n" + later;
      ReadLineStopsAtLf(text[1..], later);
      assert text + "\r\n" == [text[0]] + (text[1..] + "\r\n");
    }
  }

  lemma {:induction false} AsciiOnlyKeepsAscii(s: string)
    requires forall k :: 0 <= k < |s| ==> s[k] as int < 128
    ensures AsciiOnly(s) == s
    decreases |s|
  {
    if s != [] {
      AsciiOnlyKeepsAscii(s[1..]);
      assert s == [s[0]] + s[1..];
    }
  }

  /** Decoding a single byte keeps it exactly when it is ASCII. */
  lemma AsciiOnlyChar(c: char)
    ensures AsciiOnly([c]) == if c as int < 128 then [c] else []
  {
    assert [c][1..] == [];
  }

  /** Decoding works byte by byte: the decoding of a concatenation is the
      concatenation of the decodings, so together with `AsciiOnlyChar` it
      says the ASCII bytes are kept, in order, and the rest dropped. */
  lemma {:induction false} AsciiOnlyAppend(s1: string, s2: string)
    ensures AsciiOnly(s1 + s2) == AsciiOnly(s1) + AsciiOnly(s2)
    decreases |s1|
  {
    if s1 == [] {
      assert s1 + s2 == s2;
    } else {
      assert (s1 + s2)[1..] == s1[1..] + s2;
      AsciiOnlyAppend(s1[1..], s2);
    }
  }

  /** A reply line of the firmware followed by anything: the tool reads the
      line, drops its line ending and keeps its text. */
  lemma ReceivedLine(text: string, later: string)
    requires Printable(text) && (text == [] || (text[0] != ' ' && text[|text| - 1] != ' '))
    ensures ReceivedResponse(text + "\r\n" + later) == text
  {
    ReadLineStopsAtLf(text, later);
    AsciiOnlyKeepsAscii(text + "\r\n");
    assert text + "\r\n" == [] + text + "\r\n";
    StripOf([], text, "\r\n");
  }

  /** How the tool classifies every single-line reply the firmware sends
      with `Bootloader_SendResponse`: `+` is success with the rest of the
      line, `-` failure with the rest, `?` failure as an unknown command. */
  lemma FirmwareReplyClassified(code: char, text: string, later: string)
    requires code == RSP_OK || code == RSP_ERROR || code == RSP_UNKNOWN
    requires Printable(text) && (text == [] || (text[0] != ' ' && text[|text| - 1] != ' '))
    ensures ClassifyReply(ReceivedResponse(Response(code, text + "\r\n") + later)) ==
      if code == RSP_OK then Reply(true, text)
      else if code == RSP_ERROR then Reply(false, text)
      else Reply(false, "Unknown command")
  {
    var line := [code] + text;
    assert Response(code, text + "\r\n") + later == line + "\r\n" + later;
    ReceivedLine(line, later);
    assert line[1..] == text;
  }

  // ---------------------------------------------------------------------
  // _parse_version_fields

  /** A regular-expression word character (ASCII letters, digits, `_`). */
  predicate IsWordChar(c: char)
  {
    IsDigit(c) || 'A' <= c <= 'Z' || 'a' <= c <= 'z' || c == '_'
  }

  /** One entry of the pattern table: the key, the literal after `\b`, and
      whether the captured run is hexadecimal (`[0-9A-Fa-f]+`) or decimal
      (`\d+`). */
  datatype Pattern = Pattern(key: string, tag: string, hex: bool)

  const PATTERNS: seq<Pattern> := [
    Pattern("sj", "SJ=", false),
    Pattern("jrc", "JRC=", false),
    Pattern("cc", "CC=", false),
    Pattern("rc", "RC=", true)]

  predicate InClass(c: char, hex: bool)
  {
    if hex then IsHexDigit(c) else IsDigit(c)
  }

  /** The pattern matches at `q`: a word boundary (every tag starts with a
      word character), the tag, and at least one character of the class. */
  predicate MatchesAt(s: string, p: Pattern, q: nat)
  {
    && q + |p.tag| < |s| && s[q..q + |p.tag|] == p.tag
    && (q == 0 || !IsWordChar(s[q - 1]))
    && InClass(s[q + |p.tag|], p.hex)
  }

  /** The length of the greedy run of class characters from `i`. */
  function RunLength(s: string, i: nat, hex: bool): (n: nat)
    requires i <= |s|
    ensures i + n <= |s|
    ensures forall k :: i <= k < i + n ==> InClass(s[k], hex)
    ensures i + n == |s| || !InClass(s[i + n], hex)
    decreases |s| - i
  {
    if i == |s| || !InClass(s[i], hex) then 0 else 1 + RunLength(s, i + 1, hex)
  }

  /** `re.search`: the leftmost position from `q` on where the pattern matches. */
  function SearchFrom(s: string, p: Pattern, q: nat): (r: Option<nat>)
    ensures r.Some? ==> q <= r.value && MatchesAt(s, p, r.value)
    ensures r.Some? ==> forall k :: q <= k < r.value ==> !MatchesAt(s, p, k)
    ensures r.None? ==> forall k :: q <= k ==> !MatchesAt(s, p, k)
    decreases |s| - q
  {
    if q >= |s| then None
    else if MatchesAt(s, p, q) then Some(q)
    else SearchFrom(s, p, q + 1)
  }

  /** `match.group(1)`, when the pattern matches at all. */
  function Captured(s: string, p: Pattern): (g: Option<string>)
    ensures g.Some? ==> |g.value| > 0 && forall k :: 0 <= k < |g.value| ==> InClass(g.value[k], p.hex)
  {
    match SearchFrom(s, p, 0)
    case None => None
    case Some(q) =>
      var start := q + |p.tag|;
      Some(s[start..start + RunLength(s, start, p.hex)])
  }

  /** `int(value, 16)` for the hexadecimal pattern, `int(value)` otherwise. */
  function FieldValue(digits: string, hex: bool): nat
    requires forall k :: 0 <= k < |digits| ==> InClass(digits[k], hex)
  {
    if hex then
      assert AllHexDigits(digits) by {
        forall k | 0 <= k < |digits| ensures IsHexDigit(digits[k]) { assert InClass(digits[k], hex); }
      }
      ParseHex(digits)
    else
      assert AllDigits(digits) by {
        forall k | 0 <= k < |digits| ensures IsDigit(digits[k]) { assert InClass(digits[k], hex); }
      }
      ParseDecimal(digits)
  }

  /** The dictionary the pattern loop builds over `pats`. */
  function FieldsOf(line: string, pats: seq<Pattern>): map<string, nat>
  {
    if pats == [] then map[]
    else
      var p := pats[|pats| - 1];
      var fields := FieldsOf(line, pats[..|pats| - 1]);
      var g := Captured(line, p);
      if g.None? then fields else fields[p.key := FieldValue(g.value, p.hex)]
  }

  /** `_parse_version_fields`: `{}` for `None` or the empty line. */
  function VersionFields(line: Option<string>): map<string, nat>
  {
    if line.None? || line.value == "" then map[] else FieldsOf(line.value, PATTERNS)
  }

  /** `_parse_version_fields`, with its loop over the pattern table. */
  method ParseVersionFields(line: Option<string>) returns (fields: map<string, nat>)
    ensures fields == VersionFields(line)
  {
    if line.None? || line.value == "" {
      return map[];
    }
    fields := MatchPatterns(line.value, PATTERNS);
  }

  /** The loop of `_parse_version_fields` over a pattern table. */
  method MatchPatterns(text: string, pats: seq<Pattern>) returns (fields: map<string, nat>)
    ensures fields == FieldsOf(text, pats)
  {
    fields := map[];
    var i := 0;
    while i < |pats|
      invariant i <= |pats| && fields == FieldsOf(text, pats[..i])
    {
      assert pats[..i + 1][..i] == pats[..i];
      var p := pats[i];
      var found := Captured(text, p);
      if found.Some? {
        fields := fields[p.key := FieldValue(found.value, p.hex)];
      }
      i := i + 1;
    }
    assert pats[..i] == pats;
  }

  predicate DistinctKeys(pats: seq<Pattern>)
  {
    forall a, b :: 0 <= a < b < |pats| ==> pats[a].key != pats[b].key
  }

  /** With distinct keys, a pattern's key is in the dictionary exactly when
      the pattern matches, and holds the value of what it captured. */
  lemma {:induction false} FieldsOfKey(line: string, pats: seq<Pattern>, i: nat)
    requires i < |pats| && DistinctKeys(pats)
    ensures var fields := FieldsOf(line, pats);
      var p := pats[i];
      var g := Captured(line, p);
      && (p.key in fields <==> g.Some?)
      && (g.Some? ==> fields[p.key] == FieldValue(g.value, p.hex))
    decreases |pats|
  {
    var init := pats[..|pats| - 1];
    if i < |pats| - 1 {
      assert init[i] == pats[i];
      assert pats[i].key != pats[|pats| - 1].key;
      FieldsOfKey(line, init, i);
    } else {
      forall j | 0 <= j < |init|
        ensures init[j].key != pats[i].key
      {
        assert init[j] == pats[j];
      }
      KeyNotInFields(line, init, pats[i].key);
    }
  }

  /** A key no pattern of `pats` has is not in their dictionary. */
  lemma KeyNotInFields(line: string, pats: seq<Pattern>, key: string)
    requires forall j :: 0 <= j < |pats| ==> pats[j].key != key
    ensures key !in FieldsOf(line, pats)
  {
    FieldsOfDomain(line, pats);
  }

  /** No key outside the pattern table ever enters the dictionary. */
  lemma {:induction false} FieldsOfDomain(line: string, pats: seq<Pattern>)
    ensures forall key :: key in FieldsOf(line, pats) ==> exists j :: 0 <= j < |pats| && pats[j].key == key
    decreases |pats|
  {
    if pats != [] {
      var init := pats[..|pats| - 1];
      FieldsOfDomain(line, init);
      forall key | key in FieldsOf(line, pats)
        ensures exists j :: 0 <= j < |pats| && pats[j].key == key
      {
        if key in FieldsOf(line, init) {
          var j :| 0 <= j < |init| && init[j].key == key;
          assert pats[j] == init[j];
        } else {
          assert pats[|pats| - 1].key == key;
        }
      }
    }
  }

  /** A key is in the dictionary exactly when its pattern matches the line,
      and then holds the captured digits' value in the pattern's base; no
      other key ever appears. */
  lemma VersionFieldsKeys(line: string, i: nat)
    requires line != "" && i < |PATTERNS|
    ensures var fields := VersionFields(Some(line));
      var p := PATTERNS[i];
      var g := Captured(line, p);
      && (p.key in fields <==> g.Some?)
      && (g.Some? ==> fields[p.key] == FieldValue(g.value, p.hex))
      && fields.Keys <= {"sj", "jrc", "cc", "rc"}
  {
    PatternKeysDistinct();
    FieldsOfKey(line, PATTERNS, i);
    FieldsOfDomain(line, PATTERNS);
  }

  lemma PatternKeysDistinct()
    ensures DistinctKeys(PATTERNS)
  {
    assert "sj"[0] != "jrc"[0] && "sj"[0] != "cc"[0] && "sj"[0] != "rc"[0];
    assert "jrc"[0] != "cc"[0] && "jrc"[0] != "rc"[0] && "cc"[0] != "rc"[0];
  }

  // ---------------------------------------------------------------------
  // The firmware's version line, as the tool reads it

  /** The version line without its line ending. */
  function VersionText(d: Diag): string
  {
    VERSION_STRING + " SJ=" + Decimal(d.stubToAppCount) + " JR=" + Decimal(d.jumpReturnCount)
    + " SR=" + Decimal(d.sawResetStubMagic) + " BR=" + Hex4(d.lastRcon) + " AL=" + Hex4(d.appLastRcon)
    + " AT=" + Decimal(d.appTrapCode) + " AS=" + Decimal(d.appStage)
  }

  /** No `=` follows a `C`, and only printable ASCII occurs. */
  predicate NoCBeforeEquals(s: string)
  {
    && Printable(s)
    && forall p :: 0 < p < |s| && s[p] == '=' ==> s[p - 1] != 'C'
  }

  lemma NoCBeforeEqualsConcat(a: string, b: string)
    requires NoCBeforeEquals(a) && NoCBeforeEquals(b) && (b == [] || b[0] != '=')
    ensures NoCBeforeEquals(a + b)
  {
    var s := a + b;
    forall p | 0 <= p < |s|
      ensures 0x20 <= s[p] as int < 0x7F
      ensures 0 < p && s[p] == '=' ==> s[p - 1] != 'C'
    {
      if p >= |a| {
        assert s[p] == b[p - |a|];
        if p > |a| {
          assert s[p - 1] == b[p - 1 - |a|];
        }
      } else {
        assert s[p] == a[p];
        if p > 0 {
          assert s[p - 1] == a[p - 1];
        }
      }
    }
  }

  lemma DigitsClean(s: string)
    requires forall k :: 0 <= k < |s| ==> IsUpperHexDigit(s[k])
    ensures NoCBeforeEquals(s) && (s == [] || s[0] != '=')
  {
  }

  /** A field tag of the version line: a space, two capitals, `=`. */
  predicate FieldTag(tag: string)
  {
    |tag| == 4 && tag[0] == ' ' && 'A' <= tag[1] <= 'Z' && 'A' <= tag[2] <= 'Z' && tag[2] != 'C' && tag[3] == '='
  }

  /** One ` TAG=value` field appended to a clean text keeps it clean. */
  lemma FieldClean(prefix: string, tag: string, value: string)
    requires NoCBeforeEquals(prefix) && FieldTag(tag)
    requires forall k :: 0 <= k < |value| ==> IsUpperHexDigit(value[k])
    ensures NoCBeforeEquals(prefix + tag + value)
  {
    NoCBeforeEqualsConcat(prefix, tag);
    DigitsClean(value);
    NoCBeforeEqualsConcat(prefix + tag, value);
  }

  lemma DecimalFieldClean(prefix: string, tag: string, n: nat)
    requires NoCBeforeEquals(prefix) && FieldTag(tag)
    ensures NoCBeforeEquals(prefix + tag + Decimal(n))
  {
    FieldClean(prefix, tag, Decimal(n));
  }

  lemma Hex4FieldClean(prefix: string, tag: string, n: nat)
    requires n < 0x1_0000 && NoCBeforeEquals(prefix) && FieldTag(tag)
    ensures NoCBeforeEquals(prefix + tag + Hex4(n))
  {
    FieldClean(prefix, tag, Hex4(n));
  }

  /** The version text is printable and never has `C=` in it. */
  lemma VersionTextClean(d: Diag)
    ensures NoCBeforeEquals(VersionText(d))
  {
    var t0 := VERSION_STRING;
    var t1 := t0 + " SJ=" + Decimal(d.stubToAppCount);
    DecimalFieldClean(t0, " SJ=", d.stubToAppCount);
    var t2 := t1 + " JR=" + Decimal(d.jumpReturnCount);
    DecimalFieldClean(t1, " JR=", d.jumpReturnCount);
    var t3 := t2 + " SR=" + Decimal(d.sawResetStubMagic);
    DecimalFieldClean(t2, " SR=", d.sawResetStubMagic);
    var t4 := t3 + " BR=" + Hex4(d.lastRcon);
    Hex4FieldClean(t3, " BR=", d.lastRcon);
    var t5 := t4 + " AL=" + Hex4(d.appLastRcon);
    Hex4FieldClean(t4, " AL=", d.appLastRcon);
    var t6 := t5 + " AT=" + Decimal(d.appTrapCode);
    DecimalFieldClean(t5, " AT=", d.appTrapCode);
    DecimalFieldClean(t6, " AS=", d.appStage);
  }

  /** The last two characters of a tag found at `q`. */
  lemma TagEnd(s: string, q: nat, tag: string)
    requires |tag| >= 2 && q + |tag| <= |s| && s[q..q + |tag|] == tag
    ensures s[q + |tag| - 1] == tag[|tag| - 1] && s[q + |tag| - 2] == tag[|tag| - 2]
  {
    assert s[q + |tag| - 1] == s[q..q + |tag|][|tag| - 1];
    assert s[q + |tag| - 2] == s[q..q + |tag|][|tag| - 2];
  }

  /** A pattern whose tag ends in `C=` never matches a text without `C=`. */
  lemma NoMatchWithoutCEquals(s: string, p: Pattern)
    requires NoCBeforeEquals(s) && |p.tag| >= 2 && p.tag[|p.tag| - 2] == 'C' && p.tag[|p.tag| - 1] == '='
    ensures Captured(s, p).None?
  {
    forall q: nat
      ensures !MatchesAt(s, p, q)
    {
      if q + |p.tag| < |s| && s[q..q + |p.tag|] == p.tag {
        TagEnd(s, q, p.tag);
      }
    }
  }

  /** In `BLv1.2 SJ=<digits><tail>` the `SJ=` pattern first matches at
      position 7 and captures exactly the digits. */
  lemma SjCapturedIn(sj: string, tail: string)
    requires |sj| > 0 && AllDigits(sj) && |tail| > 0 && tail[0] == ' '
    ensures Captured(VERSION_STRING + " SJ=" + sj + tail, PATTERNS[0]) == Some(sj)
  {
    var head := VERSION_STRING + " SJ=";
    var s := head + sj + tail;
    var p := PATTERNS[0];
    assert |head| == 10 && |p.tag| == 3;
    assert s[7..10] == head[7..10] == "SJ=";
    assert s[10..10 + |sj|] == sj;
    assert s[10 + |sj|] == tail[0];
    forall k | 0 <= k < 7
      ensures !MatchesAt(s, p, k)
    {
      assert s[k] == head[k] != 'S';
      assert s[k..k + 3][0] == s[k];
    }
    assert MatchesAt(s, p, 7);
    SearchSkips(s, p, 0, 7);
    forall k | 10 <= k < 10 + |sj|
      ensures InClass(s[k], false)
    {
      assert s[k] == sj[k - 10];
    }
    RunLengthIs(s, 10, |sj|, false);
  }

  /** `SJ=` first occurs at position 7 of the version text, right after
      `BLv1.2 `, followed by the decimal digits of the counter. */
  lemma SjCaptured(d: Diag)
    ensures Captured(VersionText(d), PATTERNS[0]) == Some(Decimal(d.stubToAppCount))
  {
    var sj := Decimal(d.stubToAppCount);
    var tail := " JR=" + Decimal(d.jumpReturnCount)
      + " SR=" + Decimal(d.sawResetStubMagic) + " BR=" + Hex4(d.lastRcon) + " AL=" + Hex4(d.appLastRcon)
      + " AT=" + Decimal(d.appTrapCode) + " AS=" + Decimal(d.appStage);
    assert VersionText(d) == VERSION_STRING + " SJ=" + sj + tail;
    SjCapturedIn(sj, tail);
  }

  /** Positions from `q` up to `m` do not match and `m` does: the search
      from `q` finds `m`. */
  lemma {:induction false} SearchSkips(s: string, p: Pattern, q: nat, m: nat)
    requires q <= m && MatchesAt(s, p, m)
    requires forall k :: q <= k < m ==> !MatchesAt(s, p, k)
    ensures SearchFrom(s, p, q) == Some(m)
    decreases m - q
  {
    if q < m {
      SearchSkips(s, p, q + 1, m);
    }
  }

  /** A run of `n` class characters that the end or another character stops
      is the greedy run. */
  lemma {:induction false} RunLengthIs(s: string, i: nat, n: nat, hex: bool)
    requires i + n <= |s|
    requires forall k :: i <= k < i + n ==> InClass(s[k], hex)
    requires i + n == |s| || !InClass(s[i + n], hex)
    ensures RunLength(s, i, hex) == n
    decreases n
  {
    if n > 0 {
      RunLengthIs(s, i + 1, n - 1, hex);
    }
  }

  /** A non-empty text without `C=` whose `SJ=` pattern captures `sj`
      reads as the dictionary holding `sj` alone. */
  lemma OnlySjField(s: string, sj: string)
    requires s != "" && NoCBeforeEquals(s) && Captured(s, PATTERNS[0]) == Some(sj)
    ensures VersionFields(Some(s)) == map["sj" := FieldValue(sj, false)]
  {
    NoMatchWithoutCEquals(s, PATTERNS[1]);
    NoMatchWithoutCEquals(s, PATTERNS[2]);
    NoMatchWithoutCEquals(s, PATTERNS[3]);
    var ps := PATTERNS;
    assert ps[..1][..0] == [];
    assert FieldsOf(s, ps[..1]) == map["sj" := FieldValue(sj, false)];
    assert ps[..2][..1] == ps[..1];
    assert FieldsOf(s, ps[..2]) == FieldsOf(s, ps[..1]);
    assert ps[..3][..2] == ps[..2];
    assert FieldsOf(s, ps[..3]) == FieldsOf(s, ps[..2]);
    assert ps[..4][..3] == ps[..3];
    assert FieldsOf(s, ps[..4]) == FieldsOf(s, ps[..3]);
    assert ps[..4] == ps;
  }

  /** The tool reads the firmware's version line, followed by anything, as
      a successful reply whose text is the line without its line ending. */
  lemma VersionReply(d: Diag, later: string)
    ensures ClassifyReply(ReceivedResponse(VersionLine(d) + later)) == Reply(true, VersionText(d))
  {
    var s := VersionText(d);
    VersionTextClean(d);
    assert VersionLine(d) + later == s + "\r\n" + later;
    assert s[0] == 'B';
    var last := Decimal(d.appStage);
    assert s[|s| - 1] == last[|last| - 1];
    ReceivedLine(s, later);
  }

  /** The cross-file check: of the four fields the tool looks for, the
      firmware's version line carries only `SJ=`; `JRC=`, `CC=` and `RC=`
      never match it, and `sj` reads back the reset stub's count. */
  lemma FirmwareVersionFields(d: Diag, later: string)
    ensures ClassifyReply(ReceivedResponse(VersionLine(d) + later)) == Reply(true, VersionText(d))
    ensures VersionFields(Some(VersionText(d))) == map["sj" := d.stubToAppCount]
  {
    VersionReply(d, later);
    VersionTextClean(d);
    SjCaptured(d);
    OnlySjField(VersionText(d), Decimal(d.stubToAppCount));
    ParseDecimalOfDecimal(d.stubToAppCount);
  }

  // ---------------------------------------------------------------------
  // The record loop of upload_firmware

  /** How the record loop ends: all records sent, aborted on too many
      failures, or an exception from `int()` (caught, the upload fails). */
  datatype Upload =
    | Uploaded(errors: nat, bytesSent: nat)
    | Aborted(errors: nat, bytesSent: nat, at: nat)
    | Raised(at: nat)

  /** The record is parsed for its header (`startswith(':')` and at least 11
      characters). */
  predicate HasHeader(record: string)
  {
    IsRecordLine(record) && |record| >= 11
  }

  /** `int(record[7:9], 16)`, `int(record[3:7], 16)` and `int(record[1:3], 16)`
      all succeed. */
  predicate HeaderParses(record: string)
    requires HasHeader(record)
  {
    AllHexDigits(record[7..9]) && AllHexDigits(record[3..7]) && AllHexDigits(record[1..3])
  }

  /** `rec_len`. */
  function DeclaredLength(record: string): nat
    requires HasHeader(record) && HeaderParses(record)
  {
    ParseHex(record[1..3])
  }

  /** The loop from record `i` on; `sendOk(i)` is what `send_hex_record`
      returned for record `i`. */
  function UploadFrom(records: seq<string>, sendOk: nat -> bool, i: nat, errors: nat, bytesSent: nat): Upload
    decreases |records| - i
  {
    if i >= |records| then Uploaded(errors, bytesSent)
    else
      var record := records[i];
      if HasHeader(record) && !HeaderParses(record) then Raised(i)
      else
        var sent := if HasHeader(record) then bytesSent + DeclaredLength(record) else bytesSent;
        if sendOk(i) then UploadFrom(records, sendOk, i + 1, errors, sent)
        else if errors + 1 > 5 then Aborted(errors + 1, sent, i)
        else UploadFrom(records, sendOk, i + 1, errors + 1, sent)
  }

  /** The record loop of `upload_firmware` (progress output left out). */
  method UploadRecords(records: seq<string>, sendOk: nat -> bool) returns (u: Upload)
    ensures u == UploadFrom(records, sendOk, 0, 0, 0)
  {
    var errors: nat := 0;
    var bytesSent: nat := 0;
    var i := 0;
    while i < |records|
      invariant i <= |records|
      invariant UploadFrom(records, sendOk, i, errors, bytesSent) == UploadFrom(records, sendOk, 0, 0, 0)
    {
      var record := records[i];
      if HasHeader(record) {
        if !HeaderParses(record) {
          return Raised(i);
        }
        bytesSent := bytesSent + ParseHex(record[1..3]);
      }
      if !sendOk(i) {
        errors := errors + 1;
        if errors > 5 {
          return Aborted(errors, bytesSent, i);
        }
      }
      i := i + 1;
    }
    return Uploaded(errors, bytesSent);
  }

  /** The failed sends among the first `n` records. */
  function Failures(sendOk: nat -> bool, n: nat): nat
  {
    if n == 0 then 0 else Failures(sendOk, n - 1) + (if sendOk(n - 1) then 0 else 1)
  }

  /** The headers of the first `n` records all parse. */
  predicate HeadersParse(records: seq<string>, n: nat)
    requires n <= |records|
  {
    forall k :: 0 <= k < n && HasHeader(records[k]) ==> HeaderParses(records[k])
  }

  /** The byte counts the first `n` records declare. */
  function DeclaredBytes(records: seq<string>, n: nat): nat
    requires n <= |records| && HeadersParse(records, n)
  {
    if n == 0 then 0
    else DeclaredBytes(records, n - 1) + (if HasHeader(records[n - 1]) then DeclaredLength(records[n - 1]) else 0)
  }

  /** The counters of the record loop when it sends every record:
      `bytes_sent` adds up the byte counts the records declare and `errors`
      counts the failed sends, at most five. */
  lemma {:induction false} UploadCompletes(records: seq<string>, sendOk: nat -> bool, i: nat, errors: nat, bytesSent: nat)
    requires i <= |records| && HeadersParse(records, i)
    requires errors == Failures(sendOk, i) <= 5 && bytesSent == DeclaredBytes(records, i)
    ensures var u := UploadFrom(records, sendOk, i, errors, bytesSent);
      u.Uploaded? ==>
        && HeadersParse(records, |records|)
        && u.errors == Failures(sendOk, |records|) <= 5 && u.bytesSent == DeclaredBytes(records, |records|)
    decreases |records| - i
  {
    if i < |records| {
      var record := records[i];
      if !(HasHeader(record) && !HeaderParses(record)) {
        assert HeadersParse(records, i + 1);
        var sent := if HasHeader(record) then bytesSent + DeclaredLength(record) else bytesSent;
        assert sent == DeclaredBytes(records, i + 1);
        if sendOk(i) {
          UploadCompletes(records, sendOk, i + 1, errors, sent);
        } else if errors + 1 <= 5 {
          UploadCompletes(records, sendOk, i + 1, errors + 1, sent);
        }
      }
    }
  }

  /** The loop gives up on the sixth failed send, at the record that caused
      it, having counted the bytes of every record up to that one. */
  lemma {:induction false} UploadGivesUp(records: seq<string>, sendOk: nat -> bool, i: nat, errors: nat, bytesSent: nat)
    requires i <= |records| && HeadersParse(records, i)
    requires errors == Failures(sendOk, i) <= 5 && bytesSent == DeclaredBytes(records, i)
    ensures var u := UploadFrom(records, sendOk, i, errors, bytesSent);
      u.Aborted? ==>
        && i <= u.at < |records| && !sendOk(u.at) && HeadersParse(records, u.at + 1)
        && u.errors == Failures(sendOk, u.at + 1) == 6 && Failures(sendOk, u.at) == 5
        && u.bytesSent == DeclaredBytes(records, u.at + 1)
    decreases |records| - i
  {
    if i < |records| {
      var record := records[i];
      if !(HasHeader(record) && !HeaderParses(record)) {
        assert HeadersParse(records, i + 1);
        var sent := if HasHeader(record) then bytesSent + DeclaredLength(record) else bytesSent;
        assert sent == DeclaredBytes(records, i + 1);
        if sendOk(i) {
          UploadGivesUp(records, sendOk, i + 1, errors, sent);
        } else if errors + 1 <= 5 {
          UploadGivesUp(records, sendOk, i + 1, errors + 1, sent);
        }
      }
    }
  }

  /** The loop ends in an exception at a record whose header does not
      parse, every earlier header having parsed and at most five sends
      having failed before it. */
  lemma {:induction false} UploadRaises(records: seq<string>, sendOk: nat -> bool, i: nat, errors: nat, bytesSent: nat)
    requires i <= |records| && HeadersParse(records, i)
    requires errors == Failures(sendOk, i) <= 5 && bytesSent == DeclaredBytes(records, i)
    ensures var u := UploadFrom(records, sendOk, i, errors, bytesSent);
      u.Raised? ==>
        && i <= u.at < |records| && HasHeader(records[u.at]) && !HeaderParses(records[u.at])
        && HeadersParse(records, u.at) && Failures(sendOk, u.at) <= 5
    decreases |records| - i
  {
    if i < |records| {
      var record := records[i];
      if !(HasHeader(record) && !HeaderParses(record)) {
        assert HeadersParse(records, i + 1);
        var sent := if HasHeader(record) then bytesSent + DeclaredLength(record) else bytesSent;
        assert sent == DeclaredBytes(records, i + 1);
        if sendOk(i) {
          UploadRaises(records, sendOk, i + 1, errors, sent);
        } else if errors + 1 <= 5 {
          UploadRaises(records, sendOk, i + 1, errors + 1, sent);
        }
      }
    }
  }

  /** The tool and the firmware read the same byte count from a record:
      `int(record[1:3], 16)` is `Bootloader_HexToByte(record[1], record[2])`
      whenever the two characters are hex digits. */
  lemma DeclaredLengthIsByteCount(record: string)
    requires HasHeader(record) && HeaderParses(record)
    ensures DeclaredLength(record) == HexToByte(record[1], record[2])
  {
    var f := record[1..3];
    assert f[..1][..0] == [];
    assert f[..1] == [record[1]] && f[1] == record[2];
    assert ParseHex(f[..1]) == HexDigitValue(record[1]);
  }

  /** For a record line a HEX-file writer emitted, `rec_len` is the length
      of the record's payload. */
  lemma EncodedLength(r: Record)
    requires r.address < 0x1_0000 && r.kind < 256 && r.checksum < 256 && |r.data| < 256
    requires forall i :: 0 <= i < |r.data| ==> r.data[i] < 256
    ensures HasHeader(Encode(r)) && HeaderParses(Encode(r)) && DeclaredLength(Encode(r)) == |r.data|
  {
    var line := Encode(r);
    EncodeHeaderFields(r);
    var h := Header(|r.data|, r.address, r.kind);
    assert line[..9] == h;
    assert h[1..3] == HexPair(|r.data|, true);
    assert h[3..5] == HexPair(r.address / 256, true);
    assert h[5..7] == HexPair(r.address % 256, true);
    assert h[7..9] == HexPair(r.kind, true);
    assert line[1..3] == h[1..3] && line[7..9] == h[7..9];
    assert line[3..7] == h[3..5] + h[5..7];
    DeclaredLengthIsByteCount(line);
  }

  // ---------------------------------------------------------------------
  // ralph_loop

  /** The argument check of `ralph_loop`: the `ValueError` it raises. */
  function RalphLoopArgumentError(iterations: int): (e: Option<string>)
    ensures e.Some? <==> iterations <= 0
  {
    if iterations <= 0 then Some("iterations must be > 0") else None
  }
}
