/** The duration texts as a grammar: what the suite accepts is exactly the spellings of numbers with units, and
    what the script accepts beyond them. */
module DurationGrammar {
  import opened Collections
  import opened Durations

  /** A number and its unit. */
  datatype Piece = Piece(digits: string, unit: char)

  predicate WellFormed(piece: Piece) {
    && piece.digits != "" && (forall i | 0 <= i < |piece.digits| :: '0' <= piece.digits[i] <= '9')
    && piece.unit in "hms"
  }

  predicate AllWellFormed(pieces: seq<Piece>) {
    forall i | 0 <= i < |pieces| :: WellFormed(pieces[i])
  }

  function Spell(pieces: seq<Piece>): string {
    if pieces == [] then "" else pieces[0].digits + [pieces[0].unit] + Spell(pieces[1..])
  }

  /** Hours, minutes or seconds in seconds. */
  function Worth(piece: Piece): nat
    requires WellFormed(piece)
  {
    Nat(piece.digits) * (if piece.unit == 'h' then 3600 else if piece.unit == 'm' then 60 else 1)
  }

  function Seconds(pieces: seq<Piece>): nat
    requires AllWellFormed(pieces)
  {
    if pieces == [] then 0
    else Worth(pieces[0]) + Seconds(pieces[1..])
  }

  /** `Nat` reads a decimal number. */
  lemma NatLaws(digits: string, last: char)
    requires Digits(digits) && '0' <= last <= '9'
    ensures Nat("") == 0
    ensures Nat(digits + [last]) == 10 * Nat(digits) + (last as int - '0' as int)
  {
    assert (digits + [last])[..|digits|] == digits;
  }

  /** A spelling begins with its first piece. */
  lemma FirstPiece(text: string, p: nat, pieces: seq<Piece>)
    requires p <= |text| && pieces != [] && text[p..] == Spell(pieces)
    ensures var e := p + |pieces[0].digits|;
      e < |text| && text[p..e] == pieces[0].digits && text[e] == pieces[0].unit && text[e + 1..] == Spell(pieces[1..])
  {
    var first, rest := pieces[0], Spell(pieces[1..]);
    var n := |first.digits|;
    assert text[p..] == first.digits + ([first.unit] + rest);
    hide Spell;
    assert text[p..][..n] == first.digits && text[p..][n] == first.unit && text[p..][n + 1..] == rest;
    assert text[p..][..n] == text[p..p + n] && text[p..][n + 1..] == text[p + n + 1..];
  }

  lemma NothingSpelled()
    ensures Spell([]) == ""
  {
  }

  lemma Prepended(first: Piece, rest: seq<Piece>)
    requires WellFormed(first) && AllWellFormed(rest)
    ensures AllWellFormed([first] + rest) && Seconds([first] + rest) == Worth(first) + Seconds(rest)
    ensures Spell([first] + rest) == first.digits + [first.unit] + Spell(rest)
  {
    hide Worth;
    assert ([first] + rest)[1..] == rest;
  }

  lemma WorthIs(piece: Piece)
    requires WellFormed(piece)
    ensures Worth(piece) == Amount(piece.digits, piece.unit) && UnitSeconds(piece.unit) > 0
  {
  }

  lemma {:induction false} PartsOfSpelling(text: string, p: nat, pieces: seq<Piece>)
    requires p <= |text| && AllWellFormed(pieces) && text[p..] == Spell(pieces)
    ensures ShellParts(text, p) == Some(Seconds(pieces))
    decreases |pieces|
  {
    hide Nat, Spell, Worth, Amount, RunEnd, UnitSeconds;
    if pieces != [] {
      var first := pieces[0];
      assert WellFormed(first);
      WorthIs(first);
      var e := p + |first.digits|;
      FirstPiece(text, p, pieces);
      PartsOfSpelling(text, e + 1, pieces[1..]);
      ShellNext(text, p, e);
    } else {
      assert |text[p..]| == 0 by {
        NothingSpelled();
      }
    }
  }

  lemma {:induction false} SpellingOfParts(text: string, p: nat) returns (pieces: seq<Piece>)
    requires p <= |text| && ShellParts(text, p).Some?
    ensures AllWellFormed(pieces) && text[p..] == Spell(pieces) && ShellParts(text, p) == Some(Seconds(pieces))
    decreases |text| - p
  {
    hide Nat, Worth, Amount, RunEnd, Spell, Seconds;
    if p == |text| {
      pieces := [];
      NothingSpelled();
      NoSeconds();
    } else {
      var e := RunEnd(text, p);
      var rest := SpellingOfParts(text, e + 1);
      var first := Piece(text[p..e], text[e]);
      assert WellFormed(first);
      WorthIs(first);
      pieces := [first] + rest;
      Prepended(first, rest);
      assert text[p..] == text[p..e] + [text[e]] + text[e + 1..];
    }
  }

  lemma NoSeconds()
    ensures Seconds([]) == 0
  {
  }

  lemma {:induction false} SpellingIsAllowed(pieces: seq<Piece>)
    requires AllWellFormed(pieces)
    ensures Allowed(Spell(pieces)) && !MsAfter(Spell(pieces), 0)
    ensures pieces != [] ==> Validated(Spell(pieces))
    decreases |pieces|
  {
    if pieces != [] {
      var first, rest, text := pieces[0], Spell(pieces[1..]), Spell(pieces);
      var n := |first.digits|;
      assert WellFormed(first);
      SpellingIsAllowed(pieces[1..]);
      assert text == first.digits + [first.unit] + rest;
      assert forall i | 0 <= i < n :: text[i] == first.digits[i];
      assert text[n] == first.unit && forall i | n < i < |text| :: text[i] == rest[i - n - 1];
      forall i | 0 <= i < |text| ensures AllowedChar(text[i]) && !MsAt(text, i) {
        if i > n {
          assert !MsAt(rest, i - n - 1);
        } else if i == n && rest != "" {
          assert WellFormed(pieces[1]);
          assert rest[0] == pieces[1..][0].digits[0];
        }
      }
    }
  }

  /** The suite accepts a text as `n` seconds exactly when it spells numbers with units that add up to `n > 0`. */
  lemma ShellReadsSpellings(text: string, n: nat)
    ensures ShellSeconds(text) == Some(n) <==>
      n > 0 && exists pieces :: AllWellFormed(pieces) && text == Spell(pieces) && n == Seconds(pieces)
  {
    assert text[0..] == text;
    if ShellSeconds(text) == Some(n) {
      var pieces := SpellingOfParts(text, 0);
    }
    if pieces :| n > 0 && AllWellFormed(pieces) && text == Spell(pieces) && n == Seconds(pieces) {
      PartsOfSpelling(text, 0, pieces);
      SpellingIsAllowed(pieces);
    }
  }

  /** And then the script reads the same. */
  lemma ScriptReadsSpellings(pieces: seq<Piece>)
    requires AllWellFormed(pieces) && Seconds(pieces) > 0
    ensures JsSeconds(Spell(pieces)) == Some(Seconds(pieces) as real)
  {
    ShellReadsSpellings(Spell(pieces), Seconds(pieces));
    ParsersAgree(Spell(pieces), Seconds(pieces));
  }

  lemma NinetyMinutes()
    ensures ShellSeconds("1h30m") == Some(5400) && JsSeconds("1h30m") == Some(5400.0)
  {
    var pieces := [Piece("1", 'h'), Piece("30", 'm')];
    assert "30"[..1] == "3" && "3"[..0] == "" && "1"[..0] == "";
    assert Nat("1") == 1 && Nat("3") == 3 && Nat("30") == 30;
    assert pieces[1..] == [Piece("30", 'm')] && pieces[1..][1..] == [];
    assert Seconds(pieces[1..]) == 1800 && Seconds(pieces) == 5400;
    assert Spell(pieces[1..]) == "30m" && Spell(pieces) == "1h30m";
    hide Nat, Spell, Seconds;
    ShellReadsSpellings("1h30m", 5400);
    ScriptReadsSpellings(pieces);
  }

  // ----- what only the script accepts

  /** A bare number is seconds, 0 included. */
  lemma BareNumber(digits: string)
    requires digits != "" && Digits(digits)
    ensures JsSeconds(digits) == Some(Nat(digits) as real)
  {
    NoSpaceInDigits(digits);
    assert digits[0..|digits|] == digits;
    RunFrom(digits, 0, |digits|);
    hide Nat, Trim;
  }

  lemma NoSpaceInDigits(digits: string)
    requires digits != "" && Digits(digits)
    ensures Trim(digits) == digits
  {
    assert IsDigit(digits[0]) && IsDigit(digits[|digits| - 1]);
  }

  function InUnit(x: real, unit: char): real {
    x * (if unit == 'h' then 3600.0 else if unit == 'm' then 60.0 else 1.0)
  }

  /** Digits after a point count as tenths, hundredths and so on. */
  lemma DecimalPart(whole: string, fraction: string, unit: char)
    requires whole != "" && Digits(whole) && fraction != "" && Digits(fraction) && unit in "hms"
    requires Nat(whole) > 0
    ensures JsSeconds(whole + "." + fraction + [unit]) ==
      Some(InUnit(Nat(whole) as real + Nat(fraction) as real / Pow10(|fraction|) as real, unit))
  {
    hide Trim, Nat, Pow10, Digits, NumberEnd, NumberAt, JsSeconds, InUnit;
    var text, e := whole + "." + fraction + [unit], |whole| + 1 + |fraction|;
    var x := Nat(whole) as real + Nat(fraction) as real / Pow10(|fraction|) as real;
    DecimalAt(whole, fraction, unit);
    DecimalTrim(whole, fraction, unit);
    Exceeds(Nat(whole), Nat(fraction), Pow10(|fraction|));
    OnePart(text, e, x, unit);
  }

  lemma SecondAndAQuarter()
    ensures JsSeconds("1.25s") == Some(1.25)
  {
    hide Nat, Pow10, JsSeconds, InUnit;
    OneAndTwentyFive();
    assert "1" + "." + "25" + ['s'] == "1.25s";
    DecimalPart("1", "25", 's');
    Quarter();
  }

  lemma OneAndTwentyFive()
    ensures Nat("1") == 1 && Nat("25") == 25 && Pow10(2) == 100
  {
    assert "25"[..1] == "2" && "2"[..0] == "" && "1"[..0] == "";
    assert Nat("2") == 2;
    assert Pow10(1) == 10;
  }

  lemma Quarter()
    ensures InUnit(1.0 + 25.0 / 100.0, 's') == 1.25
  {
  }

  lemma Exceeds(n: nat, m: nat, d: nat)
    requires n > 0 && d > 0
    ensures n as real + m as real / d as real > 0.0
  {
    assert m as real / d as real >= 0.0;
  }

  lemma DecimalTrim(whole: string, fraction: string, unit: char)
    requires whole != "" && Digits(whole) && unit in "hms"
    ensures var text := whole + "." + fraction + [unit]; Trim(text) == text
  {
    var text := whole + "." + fraction + [unit];
    assert IsDigit(whole[0]) && text[0] == whole[0] && text[|text| - 1] == unit;
  }

  lemma DecimalAt(whole: string, fraction: string, unit: char)
    requires whole != "" && Digits(whole) && fraction != "" && Digits(fraction) && unit in "hms"
    ensures var text, e := whole + "." + fraction + [unit], |whole| + 1 + |fraction|;
      && |text| == e + 1 && text[e] == unit && NumberEnd(text, 0) == e
      && NumberAt(text, 0) == Nat(whole) as real + Nat(fraction) as real / Pow10(|fraction|) as real
  {
    var text := whole + "." + fraction + [unit];
    var a, e := |whole|, |whole| + 1 + |fraction|;
    assert text[0..a] == whole && text[a] == '.' && text[a + 1..e] == fraction && text[e] == unit && |text| == e + 1;
    assert !IsDigit(text[a]) && !IsDigit(text[e]);
    DigitsEnd(text, 0, a);
    DigitsEnd(text, a + 1, e);
    hide Nat, Pow10, Digits, RunEnd;
  }

  lemma DigitsEnd(text: string, p: nat, e: nat)
    requires p <= e < |text| && Digits(text[p..e]) && !IsDigit(text[e])
    ensures RunEnd(text, p) == e
  {
    RunFrom(text, p, e);
  }

  lemma OnePart(text: string, e: nat, x: real, unit: char)
    requires |text| == e + 1 && e > 0 && text[e] == unit && unit in "hms" && Trim(text) == text
    requires NumberEnd(text, 0) == e && NumberAt(text, 0) == x > 0.0
    ensures JsSeconds(text) == Some(InUnit(x, unit))
  {
    hide Trim, NumberEnd, NumberAt;
    var u := if unit == 'h' then 3600.0 else if unit == 'm' then 60.0 else 1.0;
    assert x * u > 0.0;
    assert PartAt(text, 0) == Some(Part(e + 1, x * u));
    assert JsParts(text, e + 1) == Some(0.0);
    JsGap(text, 0, 0);
  }

  lemma {:induction false} TrimStartOfPadded(text: string, c: char)
    requires IsSpace(c)
    ensures TrimStart(text + [c]) == if TrimStart(text) == "" then "" else TrimStart(text) + [c]
  {
    if text == "" {
      assert (text + [c])[1..] == "";
    } else {
      assert (text + [c])[0] == text[0] && (text + [c])[1..] == text[1..] + [c];
      if IsSpace(text[0]) {
        TrimStartOfPadded(text[1..], c);
      }
    }
  }

  lemma TrimOfPadded(text: string, c: char)
    requires IsSpace(c)
    ensures Trim([c] + text) == Trim(text) && Trim(text + [c]) == Trim(text)
  {
    assert ([c] + text)[1..] == text;
    TrimStartOfPadded(text, c);
    var start := TrimStart(text);
    assert (start + [c])[..|start|] == start;
  }

  /** White space around a text does not matter. */
  lemma Padded(text: string, c: char)
    requires c in " \t\n\r"
    ensures JsSeconds([c] + text) == JsSeconds(text) && JsSeconds(text + [c]) == JsSeconds(text)
  {
    TrimOfPadded(text, c);
    hide Trim;
  }
}
