# Wheel picker and countdown entry: a Dafny model

This project models the sequential logic inside two Jetpack Compose widgets of
the `edu.bupt.composestudy` sample app, and proves properties of it.

1. **The wheel/slide picker.** `ScrollableSelectLayout` and `SlideSelectBarLayout`
   share the same logic almost line for line:
   - a column measure policy that stacks the rows;
   - an anchor map from pixel offsets to "anchor values" in `[-1, n-2]`;
   - a start index taken from a saveable `currentSwipeItemIndex`, or a clamped middle default when that index is `-1`;
   - a `confirmStateChange` callback that moves the single `selected` flag;
   - the static vertical shift of the column;
   - the geometry of the two selection lines.

   The shared logic is defined once, in module `Picker`. Rows below cite
   whichever of the two files holds the lines in question.
2. **The countdown clock's text entry** (`CountDownTimerClock` in MirrorLayout.kt):
   - an edit filter that keeps at most four digits;
   - text normalisation on focus changes;
   - a start button that toggles `MirrorSync.startEvent` once and disables itself and the text field.

Modules:
- `KotlinInt` holds Kotlin's truncating `/`, `coerceAtLeast` and `coerceAtMost`.
- `ColumnMeasure` holds the measure policy.
- `Picker` holds the anchors, initialisation, settle callback, saver and vertical placement.
- `SelectionLines` holds the line geometry of both files.
- `Countdown` holds the clock.

Conventions of the code that the model keeps:
- The column is one blank row, then the `n` items, then one blank row, every row `h` pixels tall.
- The swipeable library settles on anchor values `v`.
- Anchor value `v` has pixel key `-(v+1)*h` and selects entry `v+1`.
- The captured `midItemIndexStart` is `mid`.
- The state invariant `Picker.Valid` says three things: exactly one entry is selected, it is entry `mid+1`, and `currentSwipeItemIndex == mid+1`.

Heights are positive integer pixels, standing in for `Dp.toPx()`. So
`(h * 1.5).toInt()` is `(3*h)/2` and `(h / 2f).toInt()` is `h/2`. Line
x-positions and fractions are `real`.

Three facts about the code that the model keeps as they are:
- The code does not clamp a stored index outside `[0, n-1]`. Line 151 of ScrollableSelectLayout.kt indexes the entry list out of bounds and throws. `Picker.Initialize` reports this as `IndexOutOfBounds`.
- The code raises no separate "selection changed" event. The only outputs are the `selected` flags and the stored index.
- Anchors are keyed `-index*h` for real item `index` with value `index-1`. No variant uses another convention.

## Model

| member | source | states |
|---|---|---|
| `ColumnMeasure.Measure` | app/src/main/java/edu/bupt/composestudy/ScrollableSelectLayout.kt:66-79 | The reported width is `maxWidth` and the height is the sum of the children's heights. Child `k` is placed at the sum of the heights of children `0..k-1`. |
| `ColumnMeasure.Offsets` | app/src/main/java/edu/bupt/composestudy/SlideBarSelectLayout.kt:72-78 | There is one y per child. The first child is placed at 0, and the last one ends at the reported height. |
| `ColumnMeasure.RowsContiguous` | app/src/main/java/edu/bupt/composestudy/SlideBarSelectLayout.kt:72-78 | Each row starts where the previous one ends. |
| `ColumnMeasure.RowsDisjoint` | app/src/main/java/edu/bupt/composestudy/SlideBarSelectLayout.kt:72-78 | Rows are in order and never overlap: row `i` ends at or above the start of any later row `j`. |
| `ColumnMeasure.RowInsideColumn` | app/src/main/java/edu/bupt/composestudy/ScrollableSelectLayout.kt:68-79 | Every row lies between 0 and the height the measure pass reports. |
| `ColumnMeasure.UniformColumn` | app/src/main/java/edu/bupt/composestudy/ScrollableSelectLayout.kt:225-241 | A column of `count` rows of height `h` (blank, the items, blank) is `count*h` tall, and row `k` starts at `k*h`. |
| `Picker.Restore` | app/src/main/java/edu/bupt/composestudy/ScrollableSelectLayout.kt:108-115 | Saving a restored state gives back the saved integer. |
| `Picker.SaverRoundTrip` | app/src/main/java/edu/bupt/composestudy/SlideBarSelectLayout.kt:107-115 | `restore(save(s)) == s` and `save(restore(v)) == v`: the saver keeps exactly one integer. |
| `Picker.AnchorKeyOrder` | app/src/main/java/edu/bupt/composestudy/ScrollableSelectLayout.kt:157-159 | For `h > 0`, anchor keys strictly decrease as the anchor value grows. Two values `d` apart have keys `d*h` apart. |
| `Picker.Anchors` | app/src/main/java/edu/bupt/composestudy/ScrollableSelectLayout.kt:155-161 | Every value lies in `[-1, n-2]`. For `h > 0`: each key is `-(v+1)*h` for its value `v`; every `v` in `[-1, n-2]` is present under that key; the map has exactly `n` entries. |
| `Picker.AnchorValues` | app/src/main/java/edu/bupt/composestudy/SlideBarSelectLayout.kt:142-148 | The anchor map's values are exactly `[-1, n-2]`, in both directions. |
| `Picker.AnchorsStepByRow` | app/src/main/java/edu/bupt/composestudy/SlideBarSelectLayout.kt:143-149 | Every anchor value `v` sits at its key. Moving one row height up (key minus `h`) reaches value `v+1`, and moving one row down reaches `v-1`, whenever that value is in `[-1, n-2]`. |
| `Picker.DefaultMid` | app/src/main/java/edu/bupt/composestudy/ScrollableSelectLayout.kt:150 | For `n >= 1` the clamped default is a legal anchor value. For `n >= 3` it selects item `(n-1)/2`; for `n = 2` the second item; for `n = 1` the only item. |
| `Picker.Initialize` | app/src/main/java/edu/bupt/composestudy/ScrollableSelectLayout.kt:142-154 | Initialisation succeeds exactly when `n >= 1` and the stored index is `-1` or in `[0, n-1]`; otherwise it is the out-of-bounds index. On success: exactly one flag, at `mid+1`; the items are unchanged; a stored index other than `-1` is kept unchanged; `-1` starts at the clamped default. |
| `Picker.DefaultStartsInMiddle` | app/src/main/java/edu/bupt/composestudy/SlideBarSelectLayout.kt:134-141 | With nothing stored and `n >= 1`, initialisation succeeds. One flag is set and `currentSwipeItemIndex == mid+1 >= 0`. The selected entry is the middle one `(n-1)/2` for `n >= 3`, and the last one for `n <= 2`. |
| `Picker.InitialValueIsAnchor` | app/src/main/java/edu/bupt/composestudy/ScrollableSelectLayout.kt:155-162 | The swipeable's `initialValue` is one of the anchor map's values. |
| `Picker.ExactlyOneSelected` | app/src/main/java/edu/bupt/composestudy/ScrollableSelectLayout.kt:163-164 | "Only entry `k` is selected" holds exactly when entry `k` is selected and the number of selected entries is 1. |
| `Picker.Confirm` | app/src/main/java/edu/bupt/composestudy/ScrollableSelectLayout.kt:162-168 | For any anchor value `it`, the callback returns `true` and sets `mid = it` and the stored index to `it+1`. Entry `it+1` becomes selected. The old entry `mid+1` is cleared unless `it == mid`. Items are unchanged and no other entry changes. |
| `Picker.ConfirmKeepsOneSelected` | app/src/main/java/edu/bupt/composestudy/SlideBarSelectLayout.kt:149-155 | From a valid state, a settle on any anchor value leaves a valid state: exactly one flag, now at `it+1`. |
| `Picker.ConfirmCurrentIsIdentity` | app/src/main/java/edu/bupt/composestudy/ScrollableSelectLayout.kt:163-167 | Settling on the current value `mid` leaves the state unchanged and is accepted. |
| `Picker.ConfirmIdempotent` | app/src/main/java/edu/bupt/composestudy/SlideBarSelectLayout.kt:150-154 | Settling twice on the same value gives the same result as settling once. |
| `Picker.SettleAll` | app/src/main/java/edu/bupt/composestudy/ScrollableSelectLayout.kt:162-182 | After any run of settles on anchor values, the state is valid and has one flag. The items are unchanged, and `mid` is the last value settled on. |
| `Picker.PersistRoundTrip` | app/src/main/java/edu/bupt/composestudy/ScrollableSelectLayout.kt:147-153 | Saving the index of a valid picker and initialising again on the same items rebuilds exactly the same picker. |
| `Picker.EvenCorrection` | app/src/main/java/edu/bupt/composestudy/ScrollableSelectLayout.kt:169 | The correction is `h/2` (Kotlin's `(h / 2f).toInt()` for `h >= 0`) when the visible count is even, and 0 when it is odd. It lies between 0 and `h`. |
| `Picker.ColumnShift` | app/src/main/java/edu/bupt/composestudy/ScrollableSelectLayout.kt:218-220 | The column is placed at `stack/2 - (3h)/2`, minus `h/2` more when the visible count is even. For an odd count, the placement plus one and a half rows is the stack's midpoint. |
| `Picker.SettledRowCentred` | app/src/main/java/edu/bupt/composestudy/ScrollableSelectLayout.kt:217-223 | The stack is `(n+2)*h` tall. At rest on anchor value `mid`, the selected row's middle (`top + h/2`) lies at the stack's midpoint, raised by the even-count correction. For an even visible count the correction is `h/2`; for an odd one the row's middle is exactly at the midpoint. This holds for every `h >= 0`. |
| `SelectionLines.Fractions` | app/src/main/java/edu/bupt/composestudy/ScrollableSelectLayout.kt:185-186 | `startFraction + endFraction == 1` and `endFraction - startFraction == lengthFraction`. For `lengthFraction` in `[0,1]`, both lie in `[0,1]`. |
| `SelectionLines.BandRows` | app/src/main/java/edu/bupt/composestudy/ScrollableSelectLayout.kt:190-202 | The two lines sit on consecutive rows. With at least one visible row, both lines are inside the viewport. They are symmetric about its middle when the visible count is odd, and half a row above it when it is even. |
| `SelectionLines.DrawnLines` | app/src/main/java/edu/bupt/composestudy/ScrollableSelectLayout.kt:184-205 | The lines are exactly `h` apart, share their x-span, are centred on the width and are `width*lengthFraction` long. The first has stroke 3 and the second the style's stroke. The first line is at `y = h*((visible-1)/2)` with Kotlin's division (`BandRows`), the second one row lower. |
| `SelectionLines.StyledLines` | app/src/main/java/edu/bupt/composestudy/ScrollableSelectLayout.kt:37-49 | Corrected lines: the second is the first moved down by `h`, and both use the style's stroke. The span is centred and `width*lengthFraction` long. For `lengthFraction` in `[0,1]` the span stays within `[0, width]`. The first line is at `y = h*((visible-1)/2)` with Kotlin's division (`BandRows`), the second one row lower. |
| `SelectionLines.DrawnFirstLineIgnoresStyle` | app/src/main/java/edu/bupt/composestudy/ScrollableSelectLayout.kt:188-193 | With a style of stroke 5, the drawn first line has stroke 3, so the drawn lines differ from the styled ones. |
| `SelectionLines.DrawnMatchesStyledIff` | app/src/main/java/edu/bupt/composestudy/ScrollableSelectLayout.kt:45-49 | The drawn and styled lines agree exactly when the style's stroke is 3. So `SelectionLineStyle.Default` is unaffected. |
| `SelectionLines.SlideBarLines` | app/src/main/java/edu/bupt/composestudy/SlideBarSelectLayout.kt:170-185 | The second line is the first moved down by `h`. Both span two thirds of the width, centred, with stroke 3. The first line is at `y = h*((visible-1)/2)` with Kotlin's division (`BandRows`), the second one row lower. |
| `SelectionLines.SlideBarIsTwoThirdsStyle` | app/src/main/java/edu/bupt/composestudy/SlideBarSelectLayout.kt:173-184 | The slide bar's lines are the scrollable picker's lines for a style with `lengthFraction = 2/3` and stroke 3, both as drawn and as styled. |
| `Countdown.ToIntOrNull` | app/src/main/java/edu/bupt/composestudy/MirrorLayout.kt:160 | Any parsed value fits in `Int`. A digit string parses exactly when it is non-empty and at most `Int.MAX_VALUE`, and then to its decimal value. |
| `Countdown.Show` | app/src/main/java/edu/bupt/composestudy/MirrorLayout.kt:79 | `"$n"` is the canonical decimal form of `n`: a non-empty digit string whose value is `n`, with no leading zero unless it is `"0"`. |
| `Countdown.ParseShow` | app/src/main/java/edu/bupt/composestudy/MirrorLayout.kt:78-79 | Parsing `"$n"` gives `n` back. |
| `Countdown.Initial` | app/src/main/java/edu/bupt/composestudy/MirrorLayout.kt:77-88 | The clock starts at 5 with the text `"5"`, which parses to that number. It has not started (`startEvent` is false, line 60), has no focus, has both the text field and the start button enabled, and uses font size 50. |
| `Countdown.InitialMatches` | app/src/main/java/edu/bupt/composestudy/MirrorLayout.kt:78-82 | The freshly built clock satisfies the text/number invariant. |
| `Countdown.ToggleStartEvent` | app/src/main/java/edu/bupt/composestudy/MirrorLayout.kt:59-65 | `toggleStartEvent` flips `startEvent`. |
| `Countdown.ToggleTwice` | app/src/main/java/edu/bupt/composestudy/MirrorLayout.kt:63-65 | Toggling twice is the identity. |
| `Countdown.ShortTextIsSmall` | app/src/main/java/edu/bupt/composestudy/MirrorLayout.kt:158-160 | At most four digits have a value of at most 9999. |
| `Countdown.OnValueChange` | app/src/main/java/edu/bupt/composestudy/MirrorLayout.kt:157-162 | A rejected edit (not all digits, or longer than 4) leaves the clock unchanged. An accepted edit changes only `displayText`, which becomes the new text, and `currentNum`. `currentNum` becomes the text's decimal value, or 1 for the empty text, and so lies in `[0, 9999]`. |
| `Countdown.OnFocusChanged` | app/src/main/java/edu/bupt/composestudy/MirrorLayout.kt:175-190 | `focusEvent` records the new focus, and only the text and font size can also change. Losing focus turns empty text into `"1"` and leaves non-empty text alone. Gaining focus turns `"Compose"` into `"1"` at font size 50 and leaves any other text alone. |
| `Countdown.FocusIdempotent` | app/src/main/java/edu/bupt/composestudy/MirrorLayout.kt:181-189 | Normalising the text twice for the same focus is the same as once. |
| `Countdown.OnStartClick` | app/src/main/java/edu/bupt/composestudy/MirrorLayout.kt:195-199 | A click flips `startEvent` and disables both the button and the text field. Nothing else changes. |
| `Countdown.Run` | app/src/main/java/edu/bupt/composestudy/MirrorLayout.kt:155-200 | Under any sequence of edits, focus changes and presses, the text stays at most four digits and `currentNum` stays its value (1 when empty). So `currentNum` stays in `[0, 9999]`. |
| `Countdown.StartIsOneShot` | app/src/main/java/edu/bupt/composestudy/MirrorLayout.kt:191-200 | Once start has been pressed, no later edit, focus change or press changes the start flag, the number or the two enabled flags. |

## Left out

- Snap resolution: the 0.5 fractional threshold, fling velocity and settle animation belong to the Material `swipeable` library, whose source is not part of this model. A settle is modelled as the library handing `confirmStateChange` some value of the anchor map. The lemmas hold for every such value.
- How Compose places a child taller than its parent. The picker box clips and centres the oversized column, so `Picker.SettledRowCentred` is stated in the column's own coordinates. It does not relate the row to the selection lines in box coordinates.
- Rendering: rows, text, icons, colours, `drawWithContent` stroke painting, `graphicsLayer { clip = true }`, the `flip()` transform, and the Canvas circle and arc.
- `Dp.toPx()` (Utils.kt) reads a global density. Heights are given integer pixel counts instead, and no floating-point rounding is modelled.
- Compose runtime mechanics are replaced by an explicit state record updated by pure functions. This covers `remember`, `rememberSaveable`, `mutableStateOf`, recomposition and the closure capture of `midItemIndexStart`.
- Changing the item list after the first composition. `rememberSwipeableState` creates its state once, so its `confirmStateChange` lambda still refers to the first entry list and the first `midItemIndexStart`. Later settles then move the flags of the old list while the rebuilt list keeps its initial flag. If the new list is longer, a settle on a new anchor value writes past the end of the old list. The model covers one item list: `Picker.Initialize` is the first composition only.
- `Picker.Confirm` requires `it` to be an anchor value and the current `mid + 1` to be in range. The library only reports anchor values, so the out-of-bounds write the code would make otherwise is not modelled.
- `Picker.Anchors`: for `h <= 0` the contract states only that the values lie in `[-1, n-2]`. The key collisions a zero height causes are not characterised.
- `SelectionLines.BandRows`: for a visible count below 1 the contract states only that the rows are consecutive.
- Measuring a child (`measurable.measure(constraints)`) is Compose's job. The measure policy takes the children's heights as given.
- MirrorLayout.kt animations are not modelled: the `GlobalScope.launch` coroutines, including the sweep-angle snap on focus, and the `Animatable` values. Nor are the reflective `newInstance` in `MirrorLayout` and the scroll and IME wiring.
- `Countdown.IsDigitsOnly` and `Countdown.ToIntOrNull` accept only ASCII `'0'..'9'`. Android's `isDigitsOnly` and Kotlin's digit parsing also accept other Unicode decimal digits.
- The text `"Compose"` is set by code outside MirrorLayout.kt. `Countdown.Run` starts from texts of at most four digits, so its traces never reach the branch at lines 181-184. That branch is covered only by `Countdown.OnFocusChanged` on its own.
- Focus events are applied whether or not the text field is enabled. This is a superset of what Compose delivers, so the invariants are proved for more traces than can occur.
- MainActivity.kt is activity wiring that calls an overload the other files do not define. ScrollSelectColumnItem.kt is a two-field holder. Neither is part of this model.

## Findings

| source | as written | input that shows it | evidently intended | confidence | as-written member | corrected member |
|---|---|---|---|---|---|---|
| app/src/main/java/edu/bupt/composestudy/ScrollableSelectLayout.kt:192 | the first selection line is drawn with `strokeWidth = 3f`; only the second uses `selectionLineStyle.strokeWidth` | a style with `lengthFraction = 1`, `strokeWidth = 5`: the first line has stroke 3 and the second stroke 5 | both lines use the style's `strokeWidth` | medium; not executed | `SelectionLines.DrawnLines` (shown by `SelectionLines.DrawnFirstLineIgnoresStyle`) | `SelectionLines.StyledLines` |
