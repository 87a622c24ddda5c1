/**
 The countdown clock's text entry and start button (`CountDownTimerClock`
 in MirrorLayout.kt): an edit filter that keeps at most four digits, the
 text normalisation done on focus changes, and the one-shot start toggle
 inherited from `MirrorSync`. Animations are not part of this model.
 */
module Countdown {

  datatype Option<T> = None | Some(value: T)

  /** Kotlin `Int` bounds. */
  const IntMax: int := 0x7fff_ffff
  const IntMin: int := -0x8000_0000

  /** The longest text the edit filter lets through. */
  const MaxLength: nat := 4

  /** Font size (sp) the clock starts with and returns to. */
  const DefaultFontSize: int := 50

  /** Text the field may show between countdowns; focusing it clears it. */
  const Placeholder: string := "Compose"

  // ---------------------------------------------------------------------
  // Digits and decimal values

  predicate IsDigit(c: char)
  {
    '0' <= c <= '9'
  }

  function DigitValue(c: char): (d: int)
    requires IsDigit(c)
    ensures 0 <= d <= 9
  {
    c as int - '0' as int
  }

  function DigitChar(d: int): (c: char)
    requires 0 <= d <= 9
    ensures IsDigit(c) && DigitValue(c) == d
  {
    ('0' as int + d) as char
  }

  /** `CharSequence.isDigitsOnly()` over ASCII digits; true of "". */
  predicate IsDigitsOnly(s: string)
  {
    forall i :: 0 <= i < |s| ==> IsDigit(s[i])
  }

  function Pow10(k: nat): (p: nat)
    ensures p >= 1
  {
    if k == 0 then 1 else 10 * Pow10(k - 1)
  }

  lemma {:induction false} Pow10Monotone(i: nat, j: nat)
    requires i <= j
    ensures Pow10(i) <= Pow10(j)
    decreases j - i
  {
    if i < j {
      Pow10Monotone(i, j - 1);
    }
  }

  /** The value of a digit string read most significant digit first; a
      string of `k` digits is below `10^k`. */
  function DecimalValue(s: string): (v: nat)
    requires IsDigitsOnly(s)
    ensures v < Pow10(|s|)
  {
    if |s| == 0 then 0
    else
      var init := s[..|s| - 1];
      assert IsDigitsOnly(init) by {
        assert forall i :: 0 <= i < |init| ==> init[i] == s[i];
      }
      var v0 := DecimalValue(init);
      assert v0 * 10 + 9 < Pow10(|s|) by {
        assert v0 + 1 <= Pow10(|init|);
        assert (v0 + 1) * 10 <= Pow10(|init|) * 10;
      }
      v0 * 10 + DigitValue(s[|s| - 1])
  }

  /** At most four digits make at most 9999. */
  lemma ShortTextIsSmall(s: string)
    requires IsDigitsOnly(s) && |s| <= MaxLength
    ensures DecimalValue(s) <= 9999
  {
    Pow10Monotone(|s|, MaxLength);
  }

  /** `String.toIntOrNull()`: an optional sign then decimal digits, `null`
      for anything else and for values outside `Int`. */
  function ToIntOrNull(s: string): (r: Option<int>)
    ensures r.Some? ==> IntMin <= r.value <= IntMax
    ensures IsDigitsOnly(s) ==> (r.Some? <==> s != [] && DecimalValue(s) <= IntMax)
    ensures IsDigitsOnly(s) && r.Some? ==> r.value == DecimalValue(s)
  {
    if |s| == 0 then None
    else if s[0] < '0' then
      var rest := s[1..];
      if |s| == 1 || !IsDigitsOnly(rest) then None
      else if s[0] == '-' then
        (if DecimalValue(rest) <= -IntMin then Some(0 - DecimalValue(rest) as int) else None)
      else if s[0] == '+' then
        (if DecimalValue(rest) <= IntMax then Some(DecimalValue(rest)) else None)
      else None
    else if IsDigitsOnly(s) && DecimalValue(s) <= IntMax then Some(DecimalValue(s))
    else None
  }

  /** The string template `"$n"` for a non-negative `n`. */
  function Show(n: nat): (s: string)
    ensures 1 <= |s| && IsDigitsOnly(s)
    ensures DecimalValue(s) == n
    ensures |s| == 1 || s[0] != '0'
  {
    if n < 10 then [DigitChar(n)]
    else
      var s := Show(n / 10) + [DigitChar(n % 10)];
      assert s[..|s| - 1] == Show(n / 10);
      s
  }

  /** Parsing what `"$n"` prints gives `n` back. */
  lemma ParseShow(n: nat)
    requires n <= IntMax
    ensures ToIntOrNull(Show(n)) == Some(n)
  {
  }

  // ---------------------------------------------------------------------
  // Clock state

  /** `MirrorSync`: the start flag both mirrored copies observe. */
  datatype MirrorSync = MirrorSync(startEvent: bool)

  /** `CountdownTimerLayoutMirrorSync` without its animation values. */
  datatype Clock = Clock(
    sync: MirrorSync,
    currentNum: int,
    displayText: string,
    textEditEnabled: bool,
    startBtnEnabled: bool,
    fontSize: int,
    focusEvent: bool)

  /** The freshly constructed clock: five seconds, shown as `"$currentNum"`. */
  function Initial(): (c: Clock)
    ensures c.currentNum == 5 && ToIntOrNull(c.displayText) == Some(c.currentNum)
    ensures c.displayText == "5" && !c.sync.startEvent && !c.focusEvent
    ensures c.textEditEnabled && c.startBtnEnabled && c.fontSize == DefaultFontSize
  {
    ParseShow(5);
    Clock(MirrorSync(false), 5, Show(5), true, true, DefaultFontSize, false)
  }

  /** `toggleStartEvent`. */
  function ToggleStartEvent(m: MirrorSync): (r: MirrorSync)
    ensures r.startEvent != m.startEvent
  {
    MirrorSync(!m.startEvent)
  }

  lemma ToggleTwice(m: MirrorSync)
    ensures ToggleStartEvent(ToggleStartEvent(m)) == m
  {
  }

  // ---------------------------------------------------------------------
  // Event handlers

  /** The filter's acceptance test. */
  predicate Accepts(text: string)
  {
    (IsDigitsOnly(text) || |text| == 0) && |text| <= MaxLength
  }

  /** `onValueChange`: take the edit only if it is at most four digits; the
      number is what the text parses to, or 1 for an empty text. */
  function OnValueChange(c: Clock, text: string): (r: Clock)
    ensures !Accepts(text) ==> r == c
    ensures Accepts(text) ==> r == c.(displayText := text, currentNum := r.currentNum)
    ensures Accepts(text) ==> 0 <= r.currentNum <= 9999
    ensures Accepts(text) && text == [] ==> r.currentNum == 1
    ensures Accepts(text) && text != [] ==> r.currentNum == DecimalValue(text)
  {
    if (IsDigitsOnly(text) || |text| == 0) && |text| <= MaxLength then
      ShortTextIsSmall(text);
      var num := match ToIntOrNull(text) case Some(v) => v case None => 1;
      c.(displayText := text, currentNum := num)
    else
      c
  }

  /** `onFocusChanged`: gaining focus clears the placeholder and restores
      the font size; losing focus turns an empty text into "1". */
  function OnFocusChanged(c: Clock, focused: bool): (r: Clock)
    ensures r.focusEvent == focused
    ensures r.(focusEvent := c.focusEvent, displayText := c.displayText, fontSize := c.fontSize) == c
    ensures !focused ==> |r.displayText| > 0 && r.fontSize == c.fontSize
    ensures !focused && |c.displayText| == 0 ==> r.displayText == "1"
    ensures !focused && |c.displayText| > 0 ==> r.displayText == c.displayText
    ensures focused && c.displayText == Placeholder ==>
      r.displayText == "1" && r.fontSize == DefaultFontSize
    ensures focused && c.displayText != Placeholder ==>
      r.displayText == c.displayText && r.fontSize == c.fontSize
  {
    var c1 := c.(focusEvent := focused);
    if focused then
      if c1.displayText == Placeholder then c1.(fontSize := DefaultFontSize, displayText := "1")
      else c1
    else
      if |c1.displayText| == 0 then c1.(displayText := "1")
      else c1
  }

  /** Normalising twice is normalising once. */
  lemma FocusIdempotent(c: Clock, focused: bool)
    ensures OnFocusChanged(OnFocusChanged(c, focused), focused) == OnFocusChanged(c, focused)
  {
  }

  /** The start button's `onClick`: toggle the start flag and disable both
      the button and the text field. */
  function OnStartClick(c: Clock): (r: Clock)
    ensures r.sync.startEvent != c.sync.startEvent
    ensures !r.startBtnEnabled && !r.textEditEnabled
    ensures r.(sync := c.sync, startBtnEnabled := c.startBtnEnabled, textEditEnabled := c.textEditEnabled) == c
  {
    c.(sync := ToggleStartEvent(c.sync), startBtnEnabled := false, textEditEnabled := false)
  }

  // ---------------------------------------------------------------------
  // Event sequences

  /** What the user can do: edit the text, move focus, press start. A
      disabled field receives no edits and a disabled button no clicks. */
  datatype Event = Edit(text: string) | Focus(focused: bool) | StartPressed

  function Step(c: Clock, e: Event): Clock
  {
    match e
    case Edit(text) => if c.textEditEnabled then OnValueChange(c, text) else c
    case Focus(focused) => OnFocusChanged(c, focused)
    case StartPressed => if c.startBtnEnabled then OnStartClick(c) else c
  }

  /** The text shows at most four digits and `currentNum` is its value, 1
      when the text is empty. */
  predicate TextMatchesNumber(c: Clock)
  {
    && IsDigitsOnly(c.displayText)
    && |c.displayText| <= MaxLength
    && c.currentNum == (if |c.displayText| == 0 then 1 else DecimalValue(c.displayText))
  }

  /** Events applied in order; text and number stay in step, so the number
      never leaves `[0, 9999]`. */
  function Run(c: Clock, events: seq<Event>): (r: Clock)
    requires TextMatchesNumber(c)
    ensures TextMatchesNumber(r)
    ensures 0 <= r.currentNum <= 9999
    decreases |events|
  {
    if |events| == 0 then
      ShortTextIsSmall(c.displayText);
      c
    else
      var c1 := Step(c, events[0]);
      assert TextMatchesNumber(c1) by {
        if events[0].Focus? && !events[0].focused && |c.displayText| == 0 {
          assert DecimalValue("1") == 1;
        }
      }
      Run(c1, events[1..])
  }

  /** The freshly built clock satisfies the invariant. */
  lemma InitialMatches()
    ensures TextMatchesNumber(Initial())
  {
  }

  /** Once start has been pressed nothing the user does reaches the start
      flag, the number or the two enabled flags again. */
  lemma {:induction false} StartIsOneShot(c: Clock, events: seq<Event>)
    requires !c.startBtnEnabled && !c.textEditEnabled
    requires TextMatchesNumber(c)
    ensures Run(c, events).sync == c.sync
    ensures Run(c, events).currentNum == c.currentNum
    ensures !Run(c, events).startBtnEnabled && !Run(c, events).textEditEnabled
    decreases |events|
  {
    if |events| > 0 {
      var c1 := Step(c, events[0]);
      assert c1.sync == c.sync && c1.currentNum == c.currentNum;
      assert Run(c, events) == Run(c1, events[1..]);
      StartIsOneShot(c1, events[1..]);
    }
  }
}
