/**
 * HexHistory (history.js): the text of one line of the move list. Building
 * and highlighting the DOM list is not modelled; what is modelled is the
 * position notation ("a1", "b2", ...) and the line written for a record,
 * each with a parser that reads it back.
 */
module History {
  import opened Hex
  import opened Rules

  // ---------------------------------------------------------------------------
  // Numbers as template literals print them

  predicate AllDigits(s: string) {
    forall i :: 0 <= i < |s| ==> '0' <= s[i] <= '9'
  }

  function DigitChar(d: nat): (c: char)
    requires d < 10
    ensures '0' <= c <= '9'
  {
    ('0' as int + d) as char
  }

  /** The decimal digits of k, most significant first, without leading zeros. */
  function Digits(k: nat): (s: string)
    ensures |s| > 0 && AllDigits(s)
  {
    if k < 10 then [DigitChar(k)] else Digits(k / 10) + [DigitChar(k % 10)]
  }

  /** An integer interpolated into a template literal: a minus sign when negative, then its digits. */
  function NumberText(k: int): (s: string)
    ensures |s| > 0 && ' ' !in s && '.' !in s
  {
    if k < 0 then "-" + Digits(-k) else Digits(k)
  }

  /** The value of a string of decimal digits. */
  function DigitsValue(s: string): nat
    requires AllDigits(s)
  {
    if |s| == 0 then 0 else DigitsValue(s[..|s| - 1]) * 10 + (s[|s| - 1] as int - '0' as int)
  }

  /** Reads back what NumberText writes. */
  function ParseNumber(s: string): Option<int> {
    if |s| > 1 && s[0] == '-' && AllDigits(s[1..]) then Some(0 - DigitsValue(s[1..]))
    else if |s| > 0 && AllDigits(s) then Some(DigitsValue(s))
    else None
  }

  lemma {:induction false} DigitsRoundTrip(k: nat)
    ensures DigitsValue(Digits(k)) == k
  {
    if k >= 10 {
      DigitsRoundTrip(k / 10);
      var s := Digits(k);
      assert s[..|s| - 1] == Digits(k / 10);
    }
  }

  lemma NumberRoundTrip(k: int)
    ensures ParseNumber(NumberText(k)) == Some(k)
  {
    var s := NumberText(k);
    if k < 0 {
      DigitsRoundTrip(-k);
      assert s[1..] == Digits(-k);
    } else {
      DigitsRoundTrip(k);
    }
  }

  // ---------------------------------------------------------------------------
  // getPositionNotation

  /**
   * String.fromCharCode(97 + q) yields the single character with code 97 + q
   * as long as that code is below the surrogate range.
   */
  predicate ColumnEncodable(q: int) {
    0 <= q && 97 + q < 0xD800
  }

  /** getPositionNotation(q, r): the character with code 97 + q ('a' for q = 0), then r + 1 in decimal. */
  function PositionNotation(q: int, r: int): (s: string)
    requires ColumnEncodable(q)
    ensures |s| >= 2 && s[0] as int == 97 + q && s[1..] == NumberText(r + 1)
    ensures ' ' !in s
  {
    [(97 + q) as char] + NumberText(r + 1)
  }

  /** Reads a position back from its notation. */
  function ParseNotation(s: string): Option<Pos> {
    if |s| == 0 then None
    else match ParseNumber(s[1..])
      case None => None
      case Some(row) => Some(Pos(s[0] as int - 97, row - 1))
  }

  /** The notation determines the position: parsing it gives the position back. */
  lemma NotationRoundTrip(q: int, r: int)
    requires ColumnEncodable(q)
    ensures ParseNotation(PositionNotation(q, r)) == Some(Pos(q, r))
  {
    NumberRoundTrip(r + 1);
  }

  // ---------------------------------------------------------------------------
  // The move-list line written by onMoveAdded

  /** '红' for red, '蓝' for blue. */
  function ColourName(p: Player): string {
    if p == Red then "\U{7EA2}" else "\U{84DD}"
  }

  const Arrow: string := "\U{2192}"

  /** The suffix "(交换)" of a swapped opening. */
  const SwapMark: string := "(\U{4EA4}\U{6362})"

  /** Every column the line needs can be written by fromCharCode. */
  predicate Renderable(m: MoveRecord) {
    && ColumnEncodable(m.position.q)
    && (m.swapUsed && m.newPosition.Some? ==> ColumnEncodable(m.newPosition.value.q))
  }

  /**
   * moveText: "<moveNumber>. <colour> <position>" for a normal move, and
   * "<moveNumber>. <colour> <position> → <newPosition> (交换)" for a swapped
   * one. A swapped record without newPosition makes the property access
   * throw, and no line is written (None).
   */
  function MoveText(m: MoveRecord): (text: Option<string>)
    requires Renderable(m)
    ensures text.None? <==> m.swapUsed && m.newPosition.None?
  {
    var head := NumberText(m.moveNumber) + ". " + ColourName(m.player) + " ";
    if m.swapUsed then
      if m.newPosition.None? then None
      else
        var np := m.newPosition.value;
        Some(head + PositionNotation(m.position.q, m.position.r) + " " + Arrow + " "
             + PositionNotation(np.q, np.r) + " " + SwapMark)
    else Some(head + PositionNotation(m.position.q, m.position.r))
  }

  // ---------------------------------------------------------------------------
  // Reading a line back

  /** The index of the first space of s. */
  function IndexOfSpace(s: string): (i: nat)
    requires ' ' in s
    ensures i < |s| && s[i] == ' ' && ' ' !in s[..i]
  {
    if s[0] == ' ' then 0
    else
      var j := IndexOfSpace(s[1..]);
      assert s[..j + 1] == [s[0]] + s[1..][..j];
      j + 1
  }

  /** The pieces of s between single spaces. */
  function Split(s: string): (parts: seq<string>)
    ensures |parts| > 0
    decreases |s|
  {
    if ' ' !in s then [s]
    else
      var i := IndexOfSpace(s);
      [s[..i]] + Split(s[i + 1..])
  }

  /** The pieces joined with single spaces. */
  function Join(parts: seq<string>): string
    requires |parts| > 0
  {
    if |parts| == 1 then parts[0] else parts[0] + " " + Join(parts[1..])
  }

  /** Splitting undoes joining when no piece holds a space. */
  lemma {:induction false} SplitJoin(parts: seq<string>)
    requires |parts| > 0 && forall k :: 0 <= k < |parts| ==> ' ' !in parts[k]
    ensures Split(Join(parts)) == parts
  {
    if |parts| > 1 {
      var a := parts[0];
      var rest := Join(parts[1..]);
      var s := Join(parts);
      assert s == a + " " + rest;
      assert s[|a|] == ' ';
      assert s[..|a|] == a;
      var i := IndexOfSpace(s);
      assert s[..i] == a;
      assert s[i + 1..] == rest;
      SplitJoin(parts[1..]);
    }
  }

  function ParseColour(s: string): Option<Player> {
    if s == ColourName(Red) then Some(Red) else if s == ColourName(Blue) then Some(Blue) else None
  }

  /** "<number>." as written at the head of a line. */
  function ParseNumbered(s: string): Option<int> {
    if |s| > 0 && s[|s| - 1] == '.' then ParseNumber(s[..|s| - 1]) else None
  }

  /** Reads a move-list line back into the record fields it shows. */
  function ParseMoveText(text: string): Option<MoveRecord> {
    var t := Split(text);
    if |t| == 3 then
      match (ParseNumbered(t[0]), ParseColour(t[1]), ParseNotation(t[2]))
        case (Some(k), Some(p), Some(pos)) => Some(MoveRecord(p, pos, k, false, None))
        case _ => None
    else if |t| == 6 && t[3] == Arrow && t[5] == SwapMark then
      match (ParseNumbered(t[0]), ParseColour(t[1]), ParseNotation(t[2]), ParseNotation(t[4]))
        case (Some(k), Some(p), Some(pos), Some(np)) => Some(MoveRecord(p, pos, k, true, Some(np)))
        case _ => None
    else None
  }

  lemma Join3(a: string, b: string, c: string)
    ensures Join([a, b, c]) == a + " " + b + " " + c
  {
    assert [a, b, c][1..] == [b, c];
    assert [b, c][1..] == [c];
    assert Join([b, c]) == b + " " + c;
    assert Join([a, b, c]) == a + " " + (b + " " + c);
  }

  lemma Join6(a: string, b: string, c: string, d: string, e: string, f: string)
    ensures Join([a, b, c, d, e, f]) == a + " " + b + " " + c + " " + d + " " + e + " " + f
  {
    var ts := [a, b, c, d, e, f];
    assert ts[1..][1..] == ts[2..] && ts[2..][1..] == ts[3..] && ts[3..][1..] == ts[4..] && ts[4..][1..] == ts[5..];
    assert Join(ts[5..]) == f;
    assert Join(ts[4..]) == e + " " + f;
    assert Join(ts[3..]) == d + " " + (e + " " + f);
    assert Join(ts[2..]) == c + " " + (d + " " + (e + " " + f));
    assert Join(ts[1..]) == b + " " + (c + " " + (d + " " + (e + " " + f)));
  }

  /** The head "<number>. <colour> " of a line is the number token, a space, the colour and a space. */
  lemma HeadTokens(k: string, c: string)
    ensures k + ". " + c + " " == (k + ".") + " " + c + " "
  {
  }

  /** The line is its fields, separated by single spaces. */
  lemma MoveTextTokens(m: MoveRecord)
    requires Renderable(m) && MoveText(m).Some?
    ensures var num := NumberText(m.moveNumber) + ".";
            var pos := PositionNotation(m.position.q, m.position.r);
            if m.swapUsed then
              var np := PositionNotation(m.newPosition.value.q, m.newPosition.value.r);
              MoveText(m).value == Join([num, ColourName(m.player), pos, Arrow, np, SwapMark])
            else MoveText(m).value == Join([num, ColourName(m.player), pos])
  {
    var k := NumberText(m.moveNumber);
    var c := ColourName(m.player);
    var pos := PositionNotation(m.position.q, m.position.r);
    HeadTokens(k, c);
    if m.swapUsed {
      var np := PositionNotation(m.newPosition.value.q, m.newPosition.value.r);
      Join6(k + ".", c, pos, Arrow, np, SwapMark);
    } else {
      Join3(k + ".", c, pos);
    }
  }

  /** The number token "<moveNumber>." reads back as the move number. */
  lemma NumberTokenRoundTrip(k: int)
    ensures ' ' !in NumberText(k) + "."
    ensures ParseNumbered(NumberText(k) + ".") == Some(k)
  {
    var num := NumberText(k) + ".";
    assert num[..|num| - 1] == NumberText(k);
    NumberRoundTrip(k);
  }

  /** A normal line reads back as its number, colour and position. */
  lemma NormalLineRoundTrip(m: MoveRecord)
    requires Renderable(m) && !m.swapUsed
    ensures ParseMoveText(MoveText(m).value) == Some(m.(newPosition := None))
  {
    NumberTokenRoundTrip(m.moveNumber);
    NotationRoundTrip(m.position.q, m.position.r);
    MoveTextTokens(m);
    SplitJoin([NumberText(m.moveNumber) + ".", ColourName(m.player), PositionNotation(m.position.q, m.position.r)]);
  }

  /** Six space-free tokens that parse as a swapped line's fields read back as that record. */
  lemma SwapTokensParse(num: string, colour: string, pos: string, np: string, m: MoveRecord)
    requires ' ' !in num && ' ' !in colour && ' ' !in pos && ' ' !in np
    requires m.swapUsed && m.newPosition.Some?
    requires ParseNumbered(num) == Some(m.moveNumber) && ParseColour(colour) == Some(m.player)
    requires ParseNotation(pos) == Some(m.position) && ParseNotation(np) == Some(m.newPosition.value)
    ensures ParseMoveText(Join([num, colour, pos, Arrow, np, SwapMark])) == Some(m)
  {
    var ts := [num, colour, pos, Arrow, np, SwapMark];
    SplitJoin(ts);
    assert Split(Join(ts)) == ts;
  }

  /** A swapped line reads back as its number, colour, position and new position. */
  lemma SwapLineRoundTrip(m: MoveRecord)
    requires Renderable(m) && m.swapUsed && m.newPosition.Some?
    ensures ParseMoveText(MoveText(m).value) == Some(m)
  {
    var np := m.newPosition.value;
    NumberTokenRoundTrip(m.moveNumber);
    NotationRoundTrip(m.position.q, m.position.r);
    NotationRoundTrip(np.q, np.r);
    MoveTextTokens(m);
    SwapTokensParse(NumberText(m.moveNumber) + ".", ColourName(m.player), PositionNotation(m.position.q, m.position.r),
                    PositionNotation(np.q, np.r), m);
  }

  /**
   * A written line reads back as the record's number, colour, position and,
   * for a swap, new position: the line loses nothing the record shows.
   */
  lemma MoveTextRoundTrip(m: MoveRecord)
    requires Renderable(m) && MoveText(m).Some?
    ensures ParseMoveText(MoveText(m).value) == Some(m.(newPosition := if m.swapUsed then m.newPosition else None))
  {
    if m.swapUsed {
      SwapLineRoundTrip(m);
    } else {
      NormalLineRoundTrip(m);
    }
  }
}
