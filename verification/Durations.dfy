/** The two parsers that read the same duration text: the shell's, which decides what a run is given,
    and the k6 script's, which decides how long it really lasts. */
module Durations {
  import opened Collections

  predicate IsDigit(c: char) {
    '0' <= c <= '9'
  }

  predicate Digits(s: string) {
    forall i | 0 <= i < |s| :: IsDigit(s[i])
  }

  /** End of the longest run of digits that starts at `p`. */
  function RunEnd(text: string, p: nat): (e: nat)
    requires p <= |text|
    ensures p <= e <= |text|
    ensures Digits(text[p..e])
    ensures e < |text| ==> !IsDigit(text[e])
    decreases |text| - p
  {
    if p < |text| && IsDigit(text[p]) then
      var e := RunEnd(text, p + 1);
      assert text[p..e] == [text[p]] + text[p + 1..e];
      e
    else p
  }

  /** A run that starts with digits up to `i` ends where the run from `i` ends. */
  lemma {:induction false} RunFrom(text: string, p: nat, i: nat)
    requires p <= i <= |text| && Digits(text[p..i])
    ensures RunEnd(text, p) == RunEnd(text, i)
    decreases i - p
  {
    if p < i {
      assert text[p..i][0] == text[p] && text[p..i][1..] == text[p + 1..i];
      RunFrom(text, p + 1, i);
    }
  }

  function Nat(digits: string): nat
    requires Digits(digits)
  {
    if digits == "" then 0
    else
      assert IsDigit(digits[|digits| - 1]);
      10 * Nat(digits[..|digits| - 1]) + (digits[|digits| - 1] as int - '0' as int)
  }

  function PlusNat(total: nat, rest: Option<nat>): Option<nat> {
    if rest.Some? then Some(total + rest.value) else None
  }

  function Plus(total: real, rest: Option<real>): Option<real> {
    if rest.Some? then Some(total + rest.value) else None
  }

  // ----- scripts/traffic-suite.sh

  predicate AllowedChar(c: char) {
    IsDigit(c) || c == 'h' || c == 'm' || c == 's'
  }

  predicate Allowed(text: string) {
    forall i | 0 <= i < |text| :: AllowedChar(text[i])
  }

  /** `validate_duration`: the four patterns that stop the script. */
  predicate Validated(text: string) {
    && text != ""
    && Allowed(text)
    && IsDigit(text[0])
    && !IsDigit(text[|text| - 1])
  }

  function UnitSeconds(c: char): nat {
    if c == 'h' then 3600 else if c == 'm' then 60 else if c == 's' then 1 else 0
  }

  function Amount(digits: string, unit: char): nat
    requires Digits(digits)
  {
    Nat(digits) * UnitSeconds(unit)
  }

  /** Seconds of a text that is nothing but numbers each followed by one unit letter. */
  function ShellParts(text: string, p: nat): Option<nat>
    requires p <= |text|
    decreases |text| - p
  {
    if p == |text| then Some(0)
    else
      var e := RunEnd(text, p);
      if e == p || e == |text| || UnitSeconds(text[e]) == 0 then None
      else PlusNat(Amount(text[p..e], text[e]), ShellParts(text, e + 1))
  }

  function Positive(seconds: Option<nat>): Option<nat> {
    match seconds
    case None => None
    case Some(n) => if n > 0 then seconds else None
  }

  lemma ShellNext(text: string, start: nat, i: nat)
    requires start <= i < |text| && !IsDigit(text[i]) && Digits(text[start..i])
    ensures ShellParts(text, start) ==
      if i == start || UnitSeconds(text[i]) == 0 then None
      else PlusNat(Amount(text[start..i], text[i]), ShellParts(text, i + 1))
  {
    RunFrom(text, start, i);
  }

  lemma ShellEnd(text: string, start: nat)
    requires start <= |text| && Digits(text[start..])
    ensures ShellParts(text, start) == if start == |text| then Some(0) else None
  {
    assert text[start..|text|] == text[start..];
    RunFrom(text, start, |text|);
  }

  /** `duration_seconds` on one line of text; `None` is a failing exit status. */
  method DurationSeconds(text: string) returns (seconds: Option<nat>)
    ensures seconds == Positive(ShellParts(text, 0))
  {
    hide ShellParts, Nat;
    var total: nat, digits := 0, "";
    ghost var start := 0;
    for i := 0 to |text|
      invariant start <= i && digits == text[start..i]
      invariant Digits(digits)
      invariant ShellParts(text, 0) == PlusNat(total, ShellParts(text, start))
    {
      var c := text[i];
      if IsDigit(c) {
        digits := digits + [c];
        continue;
      }
      ShellNext(text, start, i);
      if digits == "" {
        return None;
      }
      if c == 'h' {
        total := total + Nat(digits) * 3600;
      } else if c == 'm' {
        total := total + Nat(digits) * 60;
      } else if c == 's' {
        total := total + Nat(digits);
      } else {
        return None;
      }
      digits, start := "", i + 1;
    }
    ShellEnd(text, start);
    if digits != "" || total == 0 {
      return None;
    }
    return Some(total);
  }

  /** What the suite computes from an option: validation first, then the awk program. */
  function ShellSeconds(text: string): Option<nat> {
    if Validated(text) then Positive(ShellParts(text, 0)) else None
  }

  // ----- scripts/traffic-load-poisson.js

  /** White space and line terminators of ECMAScript, as removed by `trim`. */
  predicate IsSpace(c: char) {
    || c in " \t\n\r" || c == '\U{000B}' || c == '\U{000C}' || c == '\U{00A0}' || c == '\U{1680}'
    || '\U{2000}' <= c <= '\U{200A}' || c == '\U{2028}' || c == '\U{2029}' || c == '\U{202F}'
    || c == '\U{205F}' || c == '\U{3000}' || c == '\U{FEFF}'
  }

  function TrimStart(text: string): string {
    if text != "" && IsSpace(text[0]) then TrimStart(text[1..]) else text
  }

  function TrimEnd(text: string): string {
    if text != "" && IsSpace(text[|text| - 1]) then TrimEnd(text[..|text| - 1]) else text
  }

  function Trim(text: string): string {
    TrimEnd(TrimStart(text))
  }

  function Pow10(n: nat): (r: nat)
    ensures r >= 1
  {
    if n == 0 then 1 else 10 * Pow10(n - 1)
  }

  /** End of the number `\d+(\.\d+)?` at `p`; equal to `p` if there is none.  Both quantifiers are
      greedy, and giving back a digit can never let a unit or the end of the text match. */
  function NumberEnd(text: string, p: nat): (e: nat)
    requires p <= |text|
    ensures p <= e <= |text|
  {
    var a := RunEnd(text, p);
    if a > p && a < |text| && text[a] == '.' && RunEnd(text, a + 1) > a + 1 then RunEnd(text, a + 1) else a
  }

  /** `Number` of the text between `p` and its `NumberEnd`. */
  function NumberAt(text: string, p: nat): real
    requires p <= |text|
  {
    var a, e := RunEnd(text, p), NumberEnd(text, p);
    Nat(text[p..a]) as real + (if e == a then 0.0 else Nat(text[a + 1..e]) as real / Pow10(e - a - 1) as real)
  }

  datatype Part = Part(end: nat, seconds: real)

  /** The match of `(\d+(?:\.\d+)?)(ms|h|m|s)` that starts at `p`; `ms` is tried before `m`. */
  function PartAt(text: string, p: nat): (part: Option<Part>)
    requires p <= |text|
    ensures part.Some? ==> p < part.value.end <= |text|
  {
    var e := NumberEnd(text, p);
    if e == p || e == |text| then None
    else if e + 1 < |text| && text[e] == 'm' && text[e + 1] == 's' then Some(Part(e + 2, NumberAt(text, p) * 0.001))
    else if UnitSeconds(text[e]) > 0 then Some(Part(e + 1, NumberAt(text, p) * UnitSeconds(text[e]) as real))
    else None
  }

  /** Seconds of a text that is nothing but parts, one after the other. */
  function JsParts(text: string, p: nat): Option<real>
    requires p <= |text|
    decreases |text| - p
  {
    if p == |text| then Some(0.0)
    else
      match PartAt(text, p)
      case None => None
      case Some(part) => Plus(part.seconds, JsParts(text, part.end))
  }

  /** A bare number is seconds; anything else must be all parts and add up to something. */
  function JsSeconds(value: string): Option<real> {
    var text := Trim(value);
    if text != "" && NumberEnd(text, 0) == |text| then Some(NumberAt(text, 0))
    else
      var sum := JsParts(text, 0);
      if sum.Some? && sum.value > 0.0 then sum else None
  }

  /** Contiguous parsing goes on with the match at `start` if that is where it stands, else it fails. */
  lemma JsGap(text: string, from: nat, start: nat)
    requires from <= start <= |text| && PartAt(text, start).Some?
    requires from < start ==> PartAt(text, from) == None
    ensures JsParts(text, from) ==
      if start == from then Plus(PartAt(text, start).value.seconds, JsParts(text, PartAt(text, start).value.end))
      else None
  {
    hide NumberAt, NumberEnd, PartAt;
  }

  lemma JsEnd(text: string, from: nat)
    requires from <= |text| && PartAt(text, from) == None
    ensures JsParts(text, from) == if from == |text| then Some(0.0) else None
  {
  }

  /** One `re.exec`: the leftmost match at or after `from`. */
  method Exec(text: string, from: nat) returns (found: bool, start: nat, part: Part)
    requires from <= |text|
    ensures found ==> from <= start <= |text| && PartAt(text, start) == Some(part)
    ensures forall p | from <= p < (if found then start else |text| + 1) :: PartAt(text, p) == None
  {
    start, part := from, Part(0, 0.0);
    while start <= |text|
      invariant from <= start <= |text| + 1
      invariant forall p | from <= p < start :: PartAt(text, p) == None
    {
      match PartAt(text, start)
      case Some(m) => return true, start, m;
      case None => start := start + 1;
    }
    return false, start, part;
  }

  /** The search loop skips over garbage; comparing the consumed length with the text's is what makes
      it a parser.  `None` is the thrown error. */
  method ParseDurationSeconds(value: string) returns (seconds: Option<real>)
    ensures seconds == JsSeconds(value)
  {
    var text := Trim(value);
    hide NumberAt, NumberEnd, PartAt, JsParts, Trim;
    if text != "" && NumberEnd(text, 0) == |text| {
      return Some(NumberAt(text, 0));
    }
    var total, consumed, lastIndex := 0.0, 0, 0;
    var found, start, part := Exec(text, lastIndex);
    while found
      invariant consumed <= lastIndex <= |text|
      invariant found ==> lastIndex <= start <= |text| && PartAt(text, start) == Some(part)
      invariant forall p | lastIndex <= p < (if found then start else |text| + 1) :: PartAt(text, p) == None
      invariant JsParts(text, 0) == if consumed == lastIndex then Plus(total, JsParts(text, lastIndex)) else None
      decreases |text| - lastIndex, found
    {
      JsGap(text, lastIndex, start);
      total := total + part.seconds;
      consumed := consumed + (part.end - start);
      lastIndex := part.end;
      found, start, part := Exec(text, lastIndex);
    }
    JsEnd(text, lastIndex);
    if consumed != |text| || total <= 0.0 {
      return None;
    }
    return Some(total);
  }

  // ----- agreement

  predicate MsAt(text: string, i: nat) {
    i + 1 < |text| && text[i] == 'm' && text[i + 1] == 's'
  }

  predicate MsAfter(text: string, p: nat) {
    exists i | p <= i < |text| :: MsAt(text, i)
  }

  /** The shell's own character set leaves trimming and bare numbers nothing to do. */
  lemma ValidatedIsPlain(text: string)
    requires Validated(text)
    ensures Trim(text) == text
    ensures NumberEnd(text, 0) != |text|
  {
    assert AllowedChar(text[0]) && AllowedChar(text[|text| - 1]);
    var a := RunEnd(text, 0);
    if a < |text| { assert AllowedChar(text[a]); }
  }

  lemma AmountAsReal(digits: string, unit: char)
    requires Digits(digits)
    ensures Nat(digits) as real * UnitSeconds(unit) as real == Amount(digits, unit) as real
  {
    hide Nat;
  }

  /** On the shell's character set a part is a whole number and, `ms` aside, a one-letter unit. */
  lemma AllowedPart(text: string, p: nat)
    requires p < |text| && !IsDigit(text[|text| - 1]) && Allowed(text)
    ensures var e := RunEnd(text, p);
      && e < |text| && UnitSeconds(text[e]) > 0
      && (e == p ==> PartAt(text, p) == None)
      && (e > p && !MsAt(text, e) ==>
        PartAt(text, p) == Some(Part(e + 1, Amount(text[p..e], text[e]) as real)))
  {
    var e := RunEnd(text, p);
    assert e < |text|;
    assert AllowedChar(text[e]) && NumberEnd(text, p) == e;
    hide RunEnd, NumberEnd, Nat;
    assert NumberAt(text, p) == Nat(text[p..e]) as real;
    hide NumberAt;
    AmountAsReal(text[p..e], text[e]);
  }

  lemma JsNext(text: string, p: nat)
    requires p < |text| && !IsDigit(text[|text| - 1]) && Allowed(text)
    ensures var e := RunEnd(text, p);
      && e < |text|
      && (e == p ==> JsParts(text, p) == None)
      && (e > p && !MsAt(text, e) ==>
        JsParts(text, p) == Plus(Amount(text[p..e], text[e]) as real, JsParts(text, e + 1)))
  {
    AllowedPart(text, p);
    hide RunEnd, PartAt, Amount, UnitSeconds, MsAt, Allowed, Digits;
  }

  /** Both parsers fail, or both give the same number. */
  predicate Same(shell: Option<nat>, js: Option<real>) {
    js == if shell.Some? then Some(shell.value as real) else None
  }

  lemma SamePlus(n: nat, shell: Option<nat>, js: Option<real>)
    requires Same(shell, js)
    ensures Same(PlusNat(n, shell), Plus(n as real, js))
  {
  }

  /** Part by part, the two parsers read the same thing unless an `ms` lies ahead, which the shell
      reads as minutes followed by a unit without a number. */
  lemma {:induction false} PartsAgree(text: string, p: nat)
    requires p <= |text| && Allowed(text)
    requires p < |text| ==> !IsDigit(text[|text| - 1])
    ensures !MsAfter(text, p) ==> Same(ShellParts(text, p), JsParts(text, p))
    ensures MsAfter(text, p) ==> ShellParts(text, p) == None
    decreases |text| - p
  {
    if p == |text| {
      assert !MsAfter(text, p);
    } else {
      var e := RunEnd(text, p);
      JsNext(text, p);
      ShellNext(text, p, e);
      MsFrom(text, p, e);
      hide JsParts, ShellParts, RunEnd, Amount, Allowed, MsAfter, Plus, Digits;
      if e > p {
        PartsAgree(text, e + 1);
        if MsAt(text, e) {
          ShellNext(text, e + 1, e + 1);
        } else if !MsAfter(text, p) {
          SamePlus(Amount(text[p..e], text[e]), ShellParts(text, e + 1), JsParts(text, e + 1));
        }
      }
    }
  }

  lemma MsFrom(text: string, p: nat, e: nat)
    requires p <= e < |text| && Digits(text[p..e])
    ensures MsAfter(text, p) <==> MsAt(text, e) || MsAfter(text, e + 1)
  {
    forall i | p <= i < e ensures !MsAt(text, i) {
      assert text[p..e][i - p] == text[i];
    }
  }

  /** The suite accepts a text as `n` seconds exactly when the text passes validation, contains no
      `ms`, and the k6 script reads it as the same `n` seconds. */
  lemma ParsersAgree(text: string, n: nat)
    ensures ShellSeconds(text) == Some(n) <==>
      Validated(text) && !MsAfter(text, 0) && JsSeconds(text) == Some(n as real)
  {
    if Validated(text) {
      ValidatedIsPlain(text);
      PartsAgree(text, 0);
      hide JsParts, ShellParts, NumberEnd, Trim, NumberAt, MsAfter, Validated;
    }
  }

  /** One number with one unit letter means the same to both. */
  lemma WholePart(digits: string, unit: char)
    requires digits != "" && Digits(digits) && Nat(digits) > 0 && UnitSeconds(unit) > 0
    ensures ShellSeconds(digits + [unit]) == Some(Amount(digits, unit))
    ensures JsSeconds(digits + [unit]) == Some(Amount(digits, unit) as real)
  {
    var text := digits + [unit];
    assert Amount(digits, unit) > 0;
    OneUnit(digits, unit);
    assert text[0..|digits|] == digits;
    ShellNext(text, 0, |digits|);
    ShellEnd(text, |text|);
    hide JsSeconds, Amount, ShellParts, Validated, MsAfter, Nat, UnitSeconds, Digits;
    assert ShellSeconds(text) == Some(Amount(digits, unit));
    ParsersAgree(text, Amount(digits, unit));
  }

  lemma OneUnit(digits: string, unit: char)
    requires digits != "" && Digits(digits) && UnitSeconds(unit) > 0
    ensures Validated(digits + [unit]) && !MsAfter(digits + [unit], 0)
  {
    var text := digits + [unit];
    assert IsDigit(digits[0]);
    forall i | 0 <= i < |text| ensures AllowedChar(text[i]) && !MsAt(text, i) {
      assert i < |digits| ==> text[i] == digits[i];
    }
  }

  lemma MillisecondNumber(text: string, e: nat)
    requires |text| == e + 2 && Digits(text[0..e]) && e >= 1 && text[e] == 'm'
    ensures RunEnd(text, 0) == NumberEnd(text, 0) == e && NumberAt(text, 0) == Nat(text[0..e]) as real
  {
    RunFrom(text, 0, e);
    hide Nat, Digits;
  }

  lemma MillisecondTrim(text: string, e: nat)
    requires |text| == e + 2 && Digits(text[0..e]) && e >= 1 && text[e + 1] == 's'
    ensures Trim(text) == text
  {
    assert IsDigit(text[0..e][0]);
  }

  lemma MillisecondShell(digits: string)
    requires digits != "" && Digits(digits)
    ensures ShellParts(digits + "ms", 0) == None
  {
    var text, e := digits + "ms", |digits|;
    assert text[0..e] == digits && text[e] == 'm' && text[e + 1] == 's';
    assert text[e + 1..e + 1] == "";
    hide ShellParts, Nat, Amount;
    ShellNext(text, 0, e);
    ShellNext(text, e + 1, e + 1);
  }

  /** Milliseconds exist only for the script, as thousandths. */
  lemma MillisecondPart(digits: string)
    requires digits != "" && Digits(digits) && Nat(digits) > 0
    ensures ShellSeconds(digits + "ms") == None
    ensures JsSeconds(digits + "ms") == Some(Nat(digits) as real * 0.001)
  {
    var text, e := digits + "ms", |digits|;
    assert text[e] == 'm' && text[e + 1] == 's' && |text| == e + 2;
    assert text[0..e] == digits;
    MillisecondNumber(text, e);
    MillisecondTrim(text, e);
    MillisecondShell(digits);
    hide NumberAt, NumberEnd, Nat, RunEnd, Trim, ShellParts, Digits, Validated;
    assert PartAt(text, 0) == Some(Part(e + 2, Nat(digits) as real * 0.001));
    assert JsParts(text, e + 2) == Some(0.0);
    hide PartAt, JsParts;
    JsGap(text, 0, 0);
  }
}
