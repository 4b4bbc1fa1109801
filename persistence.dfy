/**
 * The text side of saving and loading. A saved sheet is a run of records
 * `BUNK<address>CONT<contents>` each closed by the byte 0x1F, and loading reads them back
 * with getline on that byte. The escaping variant of save writes `\n`, `\r` and `\\` for a
 * newline, a carriage return and a backslash, and `\x1f` for the byte written '\031' in the
 * source, which is octal, byte 0x19; its loader decodes `\x1f` as 0x1F. So byte 0x19 comes
 * back as 0x1F, and a real 0x1F in the contents is written raw and cuts the record short.
 * escapeString and unescapeString are a second, separate pair for quotes and newlines.
 */
module Persistence {
  import opened Builder

  /** char(31), the record terminator and getline delimiter. */
  const Unit: char := 31 as char

  /** '\031' in the escaping save: an octal escape, byte 25. */
  const Octal31: char := 25 as char

  // ---------------------------------------------------------------- save's escaping

  /** What the escaping save writes for one character of the contents. */
  function EscapeChar(c: char): string {
    if c == '\n' then "\\n"
    else if c == '\r' then "\\r"
    else if c == '\\' then "\\\\"
    else if c == Octal31 then "\\x1f"
    else [c]
  }

  /** The contents as the escaping save writes them, character by character. */
  function Escaped(s: string): string {
    if s == [] then "" else EscapeChar(s[0]) + Escaped(s[1..])
  }

  lemma {:induction false} EscapedAppend(s: string, c: char)
    ensures Escaped(s + [c]) == Escaped(s) + EscapeChar(c)
  {
    if s == [] {
      assert [] + [c] == [c];
      assert [c][1..] == [];
    } else {
      assert (s + [c])[0] == s[0] && (s + [c])[1..] == s[1..] + [c];
      EscapedAppend(s[1..], c);
    }
  }

  /** The escaping loop of save. */
  method EscapeForSave(content: string) returns (escaped: string)
    ensures escaped == Escaped(content)
  {
    escaped := "";
    var i := 0;
    while i < |content|
      invariant 0 <= i <= |content|
      invariant escaped == Escaped(content[..i])
    {
      var c := content[i];
      if c == '\n' {
        escaped := escaped + "\\n";
      } else if c == '\r' {
        escaped := escaped + "\\r";
      } else if c == '\\' {
        escaped := escaped + "\\\\";
      } else if c == Octal31 {
        escaped := escaped + "\\x1f";
      } else {
        escaped := escaped + [c];
      }
      assert content[..i + 1] == content[..i] + [c];
      EscapedAppend(content[..i], c);
      i := i + 1;
    }
    assert content[..i] == content;
  }

  // ---------------------------------------------------------------- load's decoding

  /**
   * load's decoding of the contents: `\n`, `\r`, `\\` and `\x1f` stand for a newline, a
   * carriage return, a backslash and the byte 0x1F; `\x` not followed by `1f` drops the
   * backslash and reads on from the `x`; any other escaped character stands for itself; a
   * backslash that is the last character is kept.
   */
  function Decoded(s: string): string
    decreases |s|
  {
    if s == [] then ""
    else if s[0] == '\\' && |s| >= 2 then
      if s[1] == 'n' then "\n" + Decoded(s[2..])
      else if s[1] == 'r' then "\r" + Decoded(s[2..])
      else if s[1] == '\\' then "\\" + Decoded(s[2..])
      else if s[1] == 'x' then
        if |s| >= 4 && s[2] == '1' && s[3] == 'f' then [Unit] + Decoded(s[4..])
        else Decoded(s[1..])
      else [s[1]] + Decoded(s[2..])
    else [s[0]] + Decoded(s[1..])
  }

  /** How many characters one step of the decoding loop at position i consumes, and what it appends. */
  function DecodeStep(s: string, i: nat): (r: (string, nat))
    requires i < |s|
    ensures i < r.1 <= |s|
    ensures Decoded(s[i..]) == r.0 + Decoded(s[r.1..])
  {
    var t := s[i..];
    assert t[1..] == s[i + 1..];
    if s[i] == '\\' && i + 1 < |s| then
      assert t[2..] == s[i + 2..];
      if s[i + 1] == 'n' then ("\n", i + 2)
      else if s[i + 1] == 'r' then ("\r", i + 2)
      else if s[i + 1] == '\\' then ("\\", i + 2)
      else if s[i + 1] == 'x' then
        if i + 3 < |s| && s[i + 2] == '1' && s[i + 3] == 'f' then
          assert t[4..] == s[i + 4..];
          ([Unit], i + 4)
        else ("", i + 1)
      else ([s[i + 1]], i + 2)
    else ([s[i]], i + 1)
  }

  /** The decoding loop of load: i walks forward, past the characters an escape consumed. */
  method DecodeForLoad(contents: string) returns (decoded: string)
    ensures decoded == Decoded(contents)
  {
    decoded := "";
    var i := 0;
    assert contents[0..] == contents;
    while i < |contents|
      invariant 0 <= i <= |contents|
      invariant decoded + Decoded(contents[i..]) == Decoded(contents)
      decreases |contents| - i
    {
      var piece, next := DecodeAt(contents, i);
      assert decoded + piece + Decoded(contents[next..]) == decoded + (piece + Decoded(contents[next..]));
      decoded, i := decoded + piece, next;
    }
  }

  /** One round of the decoding loop: what it appends, and the index after the loop's ++i. */
  method DecodeAt(contents: string, i: nat) returns (piece: string, next: nat)
    requires i < |contents|
    ensures (piece, next) == DecodeStep(contents, i)
  {
    next := i;
    piece := "";
    if contents[i] == '\\' && i + 1 < |contents| {
      match contents[i + 1]
      case 'n' =>
        piece := "\n";
        next := next + 1;
      case 'r' =>
        piece := "\r";
        next := next + 1;
      case '\\' =>
        piece := "\\";
        next := next + 1;
      case 'x' =>
        if i + 3 < |contents| && contents[i + 2] == '1' && contents[i + 3] == 'f' {
          piece := [Unit];
          next := next + 3;
        }
      case c =>
        piece := [c];
        next := next + 1;
    } else {
      piece := [contents[i]];
    }
    next := next + 1;
  }

  // ---------------------------------------------------------------- what a save and a load do to the contents

  /** The contents with every byte 0x19 turned into 0x1F. */
  function Retyped(s: string): (r: string)
    ensures |r| == |s|
  {
    if s == [] then "" else [if s[0] == Octal31 then Unit else s[0]] + Retyped(s[1..])
  }

  /** Decoding what the escaping save wrote gives the contents back, each byte 0x19 read as 0x1F. */
  lemma {:induction false} SaveLoadText(s: string)
    ensures Decoded(Escaped(s)) == Retyped(s)
  {
    if s != [] {
      var rest := Escaped(s[1..]);
      SaveLoadText(s[1..]);
      var e := EscapeChar(s[0]);
      assert Escaped(s) == e + rest;
      if s[0] == '\n' || s[0] == '\r' || s[0] == '\\' {
        assert (e + rest)[2..] == rest;
      } else if s[0] == Octal31 {
        assert (e + rest)[4..] == rest;
      } else {
        assert (e + rest)[1..] == rest;
      }
    }
  }

  lemma {:induction false} RetypedUnchanged(s: string)
    requires Octal31 !in s
    ensures Retyped(s) == s
  {
    if s != [] {
      assert s[0] in s;
      assert forall c :: c in s[1..] ==> c in s;
      RetypedUnchanged(s[1..]);
      assert [s[0]] + s[1..] == s;
    }
  }

  /** Contents without byte 0x19 survive the escaping save and the load exactly. */
  lemma SaveLoadExact(s: string)
    requires Octal31 !in s
    ensures Decoded(Escaped(s)) == s
  {
    SaveLoadText(s);
    RetypedUnchanged(s);
  }

  /** Byte 0x19 is saved as the four characters `\x1f` and loads back as byte 0x1F. */
  lemma OctalSavedAsEscape()
    ensures Escaped([Octal31]) == "\\x1f"
    ensures Decoded(Escaped([Octal31])) == [Unit]
  {
    SaveLoadText([Octal31]);
  }

  lemma {:induction false} EscapedJoin(a: string, b: string)
    ensures Escaped(a + b) == Escaped(a) + Escaped(b)
  {
    if a == [] {
      assert a + b == b;
    } else {
      assert (a + b)[0] == a[0] && (a + b)[1..] == a[1..] + b;
      EscapedJoin(a[1..], b);
    }
  }

  /** The escaping save never writes byte 0x1F for anything but a byte 0x1F of the contents. */
  lemma {:induction false} UnitWrittenRaw(s: string)
    ensures Unit in Escaped(s) <==> Unit in s
  {
    if s != [] {
      UnitWrittenRaw(s[1..]);
      assert Escaped(s) == EscapeChar(s[0]) + Escaped(s[1..]);
      assert s == [s[0]] + s[1..];
      assert Unit in EscapeChar(s[0]) <==> s[0] == Unit;
    }
  }

  /** An escape of an unknown character stands for that character. */
  lemma UnknownEscape(c: char, rest: string)
    requires c != 'n' && c != 'r' && c != '\\' && c != 'x'
    ensures Decoded(['\\', c] + rest) == [c] + Decoded(rest)
  {
    assert (['\\', c] + rest)[2..] == rest;
  }

  /** `\x` without `1f` after it loses the backslash and reads on from the `x`. */
  lemma LooseHexEscape(rest: string)
    requires !(|rest| >= 2 && rest[0] == '1' && rest[1] == 'f')
    ensures Decoded("\\x" + rest) == "x" + Decoded(rest)
  {
    LooseHexAt("\\x" + rest, rest);
  }

  lemma LooseHexAt(s: string, rest: string)
    requires |s| >= 2 && s[0] == '\\' && s[1] == 'x' && s[2..] == rest
    requires !(|rest| >= 2 && rest[0] == '1' && rest[1] == 'f')
    ensures Decoded(s) == "x" + Decoded(rest)
  {
    if |s| >= 4 {
      assert s[2] == rest[0] && s[3] == rest[1];
    }
    DecodedLooseHex(s);
    var t := s[1..];
    assert t[0] == 'x' && t[1..] == rest;
    DecodedPlain(t);
  }

  lemma DecodedLooseHex(s: string)
    requires |s| >= 2 && s[0] == '\\' && s[1] == 'x' && !(|s| >= 4 && s[2] == '1' && s[3] == 'f')
    ensures Decoded(s) == Decoded(s[1..])
  {
  }

  lemma DecodedPlain(s: string)
    requires s != [] && s[0] != '\\'
    ensures Decoded(s) == [s[0]] + Decoded(s[1..])
  {
  }

  /** A backslash at the very end is kept as it is. */
  lemma {:induction false} TrailingBackslash(s: string)
    requires '\\' !in s
    ensures Decoded(s + "\\") == s + "\\"
  {
    if s == [] {
      assert [] + "\\" == "\\";
    } else {
      assert s[0] in s;
      assert forall c :: c in s[1..] ==> c in s;
      TrailingBackslash(s[1..]);
      assert (s + "\\")[1..] == s[1..] + "\\";
      assert [s[0]] + (s[1..] + "\\") == s + "\\";
    }
  }

  // ---------------------------------------------------------------- escapeString / unescapeString

  /** What escapeString writes for one character. */
  function QuoteEscapeChar(c: char): string {
    if c == '\\' then "\\\\"
    else if c == '"' then "\\\""
    else if c == '\n' then "\\n"
    else [c]
  }

  /** escapeString(s): backslashes, double quotes and newlines escaped. */
  function QuoteEscaped(s: string): string {
    if s == [] then "" else QuoteEscapeChar(s[0]) + QuoteEscaped(s[1..])
  }

  /**
   * unescapeString's loop from a given state of its escape flag: after a backslash, `n`
   * stands for a newline and any other character for itself; a backslash with nothing after
   * it is dropped.
   */
  function QuoteUnescaped(s: string, escape: bool): string {
    if s == [] then ""
    else if escape then [if s[0] == 'n' then '\n' else s[0]] + QuoteUnescaped(s[1..], false)
    else if s[0] == '\\' then QuoteUnescaped(s[1..], true)
    else [s[0]] + QuoteUnescaped(s[1..], false)
  }

  lemma {:induction false} QuoteEscapedAppend(s: string, c: char)
    ensures QuoteEscaped(s + [c]) == QuoteEscaped(s) + QuoteEscapeChar(c)
  {
    if s == [] {
      assert [] + [c] == [c];
      assert [c][1..] == [];
    } else {
      assert (s + [c])[0] == s[0] && (s + [c])[1..] == s[1..] + [c];
      QuoteEscapedAppend(s[1..], c);
    }
  }

  /** escapeString's loop. */
  method EscapeString(input: string) returns (output: string)
    ensures output == QuoteEscaped(input)
  {
    output := "";
    var i := 0;
    while i < |input|
      invariant 0 <= i <= |input|
      invariant output == QuoteEscaped(input[..i])
    {
      var c := input[i];
      if c == '\\' {
        output := output + "\\\\";
      } else if c == '"' {
        output := output + "\\\"";
      } else if c == '\n' {
        output := output + "\\n";
      } else {
        output := output + [c];
      }
      assert input[..i + 1] == input[..i] + [c];
      QuoteEscapedAppend(input[..i], c);
      i := i + 1;
    }
    assert input[..i] == input;
  }

  /** unescapeString's loop, with its escape flag. */
  method UnescapeString(input: string) returns (output: string)
    ensures output == QuoteUnescaped(input, false)
  {
    output := "";
    var escape := false;
    var i := 0;
    assert input[0..] == input;
    while i < |input|
      invariant 0 <= i <= |input|
      invariant output + QuoteUnescaped(input[i..], escape) == QuoteUnescaped(input, false)
    {
      var c := input[i];
      ghost var before := output;
      ghost var rest := QuoteUnescaped(input[i + 1..], false);
      assert input[i..][1..] == input[i + 1..];
      if escape {
        if c == 'n' {
          output := output + "\n";
        } else {
          output := output + [c];
        }
        escape := false;
        assert output + rest == before + (output[|before|..] + rest);
      } else if c == '\\' {
        escape := true;
      } else {
        output := output + [c];
        assert output + rest == before + ([c] + rest);
      }
      i := i + 1;
    }
  }

  /** unescapeString undoes escapeString. */
  lemma {:induction false} QuoteRoundTrip(s: string)
    ensures QuoteUnescaped(QuoteEscaped(s), false) == s
  {
    if s != [] {
      QuoteRoundTrip(s[1..]);
      var e := QuoteEscapeChar(s[0]);
      var rest := QuoteEscaped(s[1..]);
      assert QuoteEscaped(s) == e + rest;
      if s[0] == '\\' || s[0] == '"' || s[0] == '\n' {
        assert (e + rest)[0] == '\\';
        assert (e + rest)[1..] == [e[1]] + rest;
        assert ([e[1]] + rest)[1..] == rest;
      } else {
        assert (e + rest)[1..] == rest;
      }
      assert [s[0]] + s[1..] == s;
    }
  }

  /** escapeString leaves no raw newline. */
  lemma {:induction false} QuoteEscapedOneLine(s: string)
    ensures '\n' !in QuoteEscaped(s)
  {
    if s != [] {
      QuoteEscapedOneLine(s[1..]);
      assert '\n' !in QuoteEscapeChar(s[0]);
    }
  }

  /** A backslash with nothing after it is dropped by unescapeString. */
  lemma {:induction false} DanglingBackslashDropped(s: string)
    requires '\\' !in s
    ensures QuoteUnescaped(s + "\\", false) == s
  {
    if s == [] {
      assert [] + "\\" == "\\";
      assert "\\"[1..] == [];
    } else {
      assert s[0] in s;
      assert forall c :: c in s[1..] ==> c in s;
      DanglingBackslashDropped(s[1..]);
      assert (s + "\\")[1..] == s[1..] + "\\";
      assert [s[0]] + s[1..] == s;
    }
  }

  // ---------------------------------------------------------------- getline on char(31)

  /** Where the first char(31) of s is, or |s| when there is none. */
  function UnitAt(s: string): (k: nat)
    ensures k <= |s|
    ensures k < |s| ==> s[k] == Unit
    ensures Unit !in s[..k]
  {
    if s == [] || s[0] == Unit then 0
    else
      var k := UnitAt(s[1..]);
      assert s[..1 + k] == [s[0]] + s[1..][..k];
      1 + k
  }

  /**
   * The lines getline(is, line, char(31)) reads from s one after the other: the text up to
   * each char(31), and the text after the last one when there is any. Empty lines between
   * two terminators are read too.
   */
  function Lines(s: string): (lines: seq<string>)
    ensures forall l :: l in lines ==> Unit !in l
    decreases |s|
  {
    if s == [] then []
    else
      var k := UnitAt(s);
      if k == |s| then
        assert s[..k] == s;
        [s]
      else [s[..k]] + Lines(s[k + 1..])
  }

  lemma {:induction false} UnitAtIs(s: string, k: nat)
    requires k < |s| && s[k] == Unit && Unit !in s[..k]
    ensures UnitAt(s) == k
  {
    if k > 0 {
      assert s[0] == s[..k][0];
      assert s[1..][..k - 1] == s[..k][1..];
      assert forall c :: c in s[..k][1..] ==> c in s[..k];
      UnitAtIs(s[1..], k - 1);
    }
  }

  /** A line without char(31), then char(31): getline reads that line, then goes on after it. */
  lemma LinesOfRecord(line: string, rest: string)
    requires Unit !in line
    ensures Lines(line + [Unit] + rest) == [line] + Lines(rest)
  {
    var s := line + [Unit] + rest;
    assert s[..|line|] == line;
    UnitAtIs(s, |line|);
    assert s[|line| + 1..] == rest;
  }

  /** A byte 0x1F in the text cuts it in two lines. */
  lemma UnitSplits(a: string, b: string)
    requires Unit !in a
    ensures Lines(a + [Unit] + b) == [a] + Lines(b)
  {
    LinesOfRecord(a, b);
  }

  // ---------------------------------------------------------------- the record format

  predicate OccursAt(s: string, pat: string, j: nat) {
    j + |pat| <= |s| && s[j..j + |pat|] == pat
  }

  /** std::string::find(pat) from position from: the first place pat occurs, or npos (None). */
  function Find(s: string, pat: string, from: nat): (r: Option<nat>)
    ensures r.Some? ==> from <= r.value && OccursAt(s, pat, r.value)
    ensures forall j :: from <= j && (r.None? || j < r.value) ==> !OccursAt(s, pat, j)
    decreases |s| + 1 - from
  {
    if from + |pat| > |s| then None
    else if s[from..from + |pat|] == pat then Some(from)
    else Find(s, pat, from + 1)
  }

  /** What a record holds: the address text and the contents. */
  datatype Record = Record(code: string, text: string)

  /** A record as save writes it, without the char(31) after it. */
  function RecordLine(code: string, text: string): string {
    "BUNK" + code + "CONT" + text
  }

  /** A record holds the delimiter 0x1F only where its address text or its cell text does. */
  lemma RecordLineUnitFree(code: string, text: string)
    requires Unit !in code && Unit !in text
    ensures Unit !in RecordLine(code, text)
  {
    assert Unit !in "BUNK" && Unit !in "CONT";
  }

  /** The markers BUNK and CONT cannot overlap. */
  lemma MarkersApart(line: string, b: nat, c: nat)
    requires OccursAt(line, "BUNK", b) && OccursAt(line, "CONT", c) && b <= c
    ensures b + 4 <= c
  {
    assert line[c] == line[c..c + 4][0] == 'C';
    assert forall j :: b <= j < b + 4 ==> line[j] == line[b..b + 4][j - b] != 'C';
  }

  /**
   * A line of load: the address text between the first BUNK and the first CONT, and
   * everything after that CONT; None when either is missing or CONT comes first.
   */
  function ParseLine(line: string): (r: Option<Record>)
  {
    var b := Find(line, "BUNK", 0);
    var c := Find(line, "CONT", 0);
    if b.None? || c.None? || b.value > c.value then None
    else
      MarkersApart(line, b.value, c.value);
      Some(Record(line[b.value + 4..c.value], line[c.value + 4..]))
  }

  /** pat occurs somewhere in s. */
  predicate Mentions(s: string, pat: string) {
    exists j :: 0 <= j <= |s| && OccursAt(s, pat, j)
  }

  /** The first place pat occurs is p, when it occurs at p and nowhere before. */
  lemma FindIs(s: string, pat: string, p: nat)
    requires OccursAt(s, pat, p)
    requires forall j: nat :: j < p ==> !OccursAt(s, pat, j)
    ensures Find(s, pat, 0) == Some(p)
  {
  }

  /**
   * A record reads back as the address text and the contents save wrote, as long as the
   * address text does not itself hold CONT.
   */
  lemma RecordReadBack(code: string, text: string)
    requires !Mentions(code, "CONT")
    ensures ParseLine(RecordLine(code, text)) == Some(Record(code, text))
  {
    var line := RecordLine(code, text);
    var p := 4 + |code|;
    assert line[..4] == "BUNK" && line[4..p] == code && line[p..p + 4] == "CONT" && line[p + 4..] == text;
    assert OccursAt(line, "BUNK", 0);
    FindIs(line, "BUNK", 0);
    forall j: nat | j < p
      ensures !OccursAt(line, "CONT", j)
    {
      if j < 4 {
        assert line[j] == line[..4][j];
      } else if j + 4 <= p {
        assert line[j..j + 4] == code[j - 4..j];
        assert !OccursAt(code, "CONT", j - 4);
      } else {
        assert line[j..j + 4][p - j] == line[p];
      }
    }
    FindIs(line, "CONT", p);
  }

  /**
   * A record whose address text starts with the column CONT (as CONT1 does) is cut at that
   * CONT: the address text read is empty, and CPos throws on it.
   */
  lemma ContColumnMisread(rest: string, text: string)
    ensures ParseLine(RecordLine("CONT" + rest, text)) == Some(Record("", rest + "CONT" + text))
  {
    var line := RecordLine("CONT" + rest, text);
    assert line[..4] == "BUNK" && line[4..8] == "CONT";
    assert OccursAt(line, "BUNK", 0);
    FindIs(line, "BUNK", 0);
    forall j: nat | j < 4
      ensures !OccursAt(line, "CONT", j)
    {
      assert line[j] == line[..4][j];
    }
    assert OccursAt(line, "CONT", 4);
    FindIs(line, "CONT", 4);
    assert line[8..] == rest + "CONT" + text;
    assert line[4..4] == "";
  }
}
