/**
  The text and series helpers of the character-level RNN project: cleaning a
  corpus down to lowercase letters and a little punctuation, and cutting a
  text or a series into sliding windows, each paired with the element that
  follows it.
 */
module RnnText {

  /** The punctuation list kept by the cleaner (space is in it as well). */
  const PUNCTUATION: seq<char> := ['!', ',', '.', ':', ';', '?', ' ']

  /** The regular expression class [A-Za-z ], written out. */
  predicate AlphaMatch(c: char) {
    ('A' <= c <= 'Z') || ('a' <= c <= 'z') || c == ' '
  }

  /** A character the cleaner keeps: the regular expression matches it, or it is punctuation. */
  predicate Kept(c: char) {
    AlphaMatch(c) || c in PUNCTUATION
  }

  /** ASCII lowercasing, which is what lower() does to every kept character. */
  function Lower(c: char): (r: char)
    ensures 'A' <= c <= 'Z' ==> 'a' <= r <= 'z' && r as int - c as int == 'a' as int - 'A' as int
    ensures !('A' <= c <= 'Z') ==> r == c
  {
    if 'A' <= c <= 'Z' then (c as int - 'A' as int + 'a' as int) as char else c
  }

  /** The characters a cleaned text is made of. */
  predicate Allowed(c: char) {
    ('a' <= c <= 'z') || c in PUNCTUATION
  }

  /** What one character of the input contributes to the cleaned text. */
  function CleanChar(c: char): (r: string)
    ensures |r| <= 1
    ensures r != [] <==> Kept(c)
    ensures r != [] ==> r[0] == Lower(c) && Allowed(r[0])
  {
    if Kept(c) then [Lower(c)] else []
  }

  /** cleaned_text: the kept characters of the text, lowercased, in order. */
  function CleanedText(text: string): (r: string)
    ensures |r| <= |text|
    ensures forall i :: 0 <= i < |r| ==> Allowed(r[i])
  {
    if text == [] then [] else CleanChar(text[0]) + CleanedText(text[1..])
  }

  /** Cleaning works character by character: it distributes over concatenation. */
  lemma {:induction false} CleanedAppend(a: string, b: string)
    ensures CleanedText(a + b) == CleanedText(a) + CleanedText(b)
  {
    if a == [] {
      assert a + b == b;
    } else {
      assert (a + b)[1..] == a[1..] + b;
      CleanedAppend(a[1..], b);
    }
  }

  /** Appending one character appends exactly what that character contributes. */
  lemma CleanedSnoc(text: string, c: char)
    ensures CleanedText(text + [c]) == CleanedText(text) + (if Kept(c) then [Lower(c)] else [])
  {
    CleanedAppend(text, [c]);
    assert CleanedText([c]) == CleanChar(c) + CleanedText([]);
  }

  /** Text already made of allowed characters is left as it is, and only such text is. */
  lemma {:induction false} CleanedFixed(text: string)
    ensures CleanedText(text) == text <==> forall i :: 0 <= i < |text| ==> Allowed(text[i])
  {
    if text != [] {
      CleanedFixed(text[1..]);
      if forall i :: 0 <= i < |text| ==> Allowed(text[i]) {
        assert Allowed(text[0]);
        assert forall i :: 0 <= i < |text[1..]| ==> Allowed(text[1..][i]) by {
          forall i | 0 <= i < |text[1..]| ensures Allowed(text[1..][i]) {
            assert text[1..][i] == text[i + 1];
          }
        }
        assert text == [text[0]] + text[1..];
      }
    }
  }

  /** Cleaning twice is cleaning once. */
  lemma CleanedIdempotent(text: string)
    ensures CleanedText(CleanedText(text)) == CleanedText(text)
  {
    CleanedFixed(CleanedText(text));
  }

  /** A cleaned text is no longer than the input, and equally long only when every character is kept. */
  lemma {:induction false} CleanedKeepsAll(text: string)
    ensures |CleanedText(text)| == |text| <==> forall i :: 0 <= i < |text| ==> Kept(text[i])
  {
    if text != [] {
      CleanedKeepsAll(text[1..]);
      if forall i :: 0 <= i < |text[1..]| ==> Kept(text[1..][i]) {
        forall i | 1 <= i < |text| ensures Kept(text[i]) {
          assert text[i] == text[1..][i - 1];
        }
      } else {
        var i :| 0 <= i < |text[1..]| && !Kept(text[1..][i]);
        assert !Kept(text[i + 1]);
      }
    }
  }

  /** The outcome of window_transform_text: the input and output lists, or the IndexError it raises. */
  datatype TextOutcome = Pairs(inputs: seq<string>, outputs: seq<char>) | IndexError

  /** Python's floor division (1+len(text)-window_size)//step_size; for a positive divisor it is Dafny's division. */
  function Steps(n: nat, window: nat, step: int): int
    requires step >= 1
  {
    (1 + n - window) / step
  }

  /**
    The pairs cut from text at every step characters: count windows of the
    given size, each with the character after it.
   */
  function StridedPairs(text: string, window: nat, step: int, count: nat): (r: TextOutcome)
    requires step >= 1 && (count > 0 ==> (count - 1) * step + window < |text|)
    ensures r.Pairs? && |r.inputs| == |r.outputs| == count
    ensures forall k :: 0 <= k < count ==>
      && k * step + window < |text|
      && r.inputs[k] == text[k * step .. k * step + window]
      && r.outputs[k] == text[k * step + window]
  {
    StartsInRange(|text|, window, step, count);
    Pairs(seq(count, k requires 0 <= k < count => text[k * step .. k * step + window]),
          seq(count, k requires 0 <= k < count => text[k * step + window]))
  }

  /**
    window_transform_text as written: Steps windows starting every step
    characters, each with the character after it. The outputs are read at
    increasing positions, so the comprehension fails exactly when the last
    one is past the end of the text.
   */
  function WindowTransformTextAsWritten(text: string, window: nat, step: int): (r: TextOutcome)
    requires step >= 1
    ensures r.IndexError? <==> step == 1 && |text| >= window
    ensures r.Pairs? ==> |r.inputs| == |r.outputs| == AsWrittenCount(|text|, window, step)
    ensures r.Pairs? ==> forall k :: 0 <= k < |r.inputs| ==>
      && k * step + window < |text|
      && r.inputs[k] == text[k * step .. k * step + window]
      && r.outputs[k] == text[k * step + window]
  {
    var steps := Steps(|text|, window, step);
    StepsBound(|text|, window, step);
    if steps > 0 && (steps - 1) * step + window >= |text| then
      IndexError
    else
      StridedPairs(text, window, step, AsWrittenCount(|text|, window, step))
  }

  /** The number of pairs the code as written asks for: range(steps) is empty for a negative count. */
  function AsWrittenCount(n: nat, window: nat, step: int): nat
    requires step >= 1
  {
    if Steps(n, window, step) > 0 then Steps(n, window, step) else 0
  }

  /** The last output index of the as-written count is past the end exactly for step 1 on a text at least a window long. */
  lemma StepsBound(n: nat, window: nat, step: int)
    requires step >= 1
    ensures Steps(n, window, step) * step <= 1 + n - window
    ensures (Steps(n, window, step) > 0 && (Steps(n, window, step) - 1) * step + window >= n)
            <==> step == 1 && n >= window
  {
    var q := Steps(n, window, step);
    var m := (1 + n - window) % step;
    assert 1 + n - window == q * step + m && 0 <= m < step;
    assert (q - 1) * step + window == 1 + n - m - step;
    if step == 1 {
      assert m == 0;
      assert q == 1 + n - window;
    }
  }

  /** With count windows whose last output is in range, every window and output is in range. */
  lemma StartsInRange(n: nat, window: nat, step: int, count: nat)
    requires step >= 1
    requires count > 0 ==> (count - 1) * step + window < n
    ensures forall k :: 0 <= k < count ==> 0 <= k * step && k * step + window < n
  {
    forall k | 0 <= k < count ensures 0 <= k * step && k * step + window < n {
      MulMonotone(k, count - 1, step);
    }
  }

  lemma MulMonotone(a: nat, b: nat, c: nat)
    requires a <= b
    ensures a * c <= b * c
  {
  }

  /** The number of start positions in range(0, len(text) - window_size, step_size). */
  function WindowCount(n: nat, window: nat, step: int): (r: nat)
    requires step >= 1
    ensures r > 0 ==> (r - 1) * step + window < n
    ensures r * step + window >= n
  {
    if n > window then
      var q := (n - window - 1) / step;
      assert n - window - 1 == q * step + (n - window - 1) % step;
      q + 1
    else 0
  }

  /**
    The windows window_transform_text is meant to produce: one at each start
    position of range(0, len(text) - window_size, step_size), so that every
    window has a following character and no further window would.
   */
  function WindowTransformText(text: string, window: nat, step: int): (r: TextOutcome)
    requires step >= 1
    ensures r.Pairs? && |r.inputs| == WindowCount(|text|, window, step)
    ensures forall k :: 0 <= k < |r.inputs| ==> k * step + window < |text|
    ensures |r.inputs| * step + window >= |text|
  {
    StridedPairs(text, window, step, WindowCount(|text|, window, step))
  }

  /** The as-written count never exceeds the intended one for steps of two or more, and equals it for step two. */
  lemma CountsCompare(n: nat, window: nat, step: int)
    requires step >= 2
    ensures AsWrittenCount(n, window, step) <= WindowCount(n, window, step)
    ensures step == 2 ==> AsWrittenCount(n, window, step) == WindowCount(n, window, step)
  {
    var steps := Steps(n, window, step);
    var count := WindowCount(n, window, step);
    StepsBound(n, window, step);
    if steps > count && steps > 0 {
      MulMonotone(count, steps - 1, step);
      assert false;
    }
    if step == 2 && count > 0 {
      assert steps * 2 + (1 + n - window) % 2 == 1 + n - window;
    }
  }

  /** Fewer strided pairs are a prefix of more. */
  lemma StridedPrefix(text: string, window: nat, step: int, fewer: nat, more: nat)
    requires step >= 1 && fewer <= more
    requires fewer > 0 ==> (fewer - 1) * step + window < |text|
    requires more > 0 ==> (more - 1) * step + window < |text|
    ensures StridedPairs(text, window, step, fewer).inputs == StridedPairs(text, window, step, more).inputs[..fewer]
    ensures StridedPairs(text, window, step, fewer).outputs == StridedPairs(text, window, step, more).outputs[..fewer]
  {
  }

  /**
    For steps of two or more the code as written raises nothing and produces
    a prefix of the intended windows; for step two it produces all of them.
   */
  lemma AsWrittenPrefix(text: string, window: nat, step: int)
    requires step >= 2
    ensures WindowTransformTextAsWritten(text, window, step).Pairs?
    ensures WindowTransformTextAsWritten(text, window, step).inputs <= WindowTransformText(text, window, step).inputs
    ensures WindowTransformTextAsWritten(text, window, step).outputs <= WindowTransformText(text, window, step).outputs
    ensures step == 2 ==> WindowTransformTextAsWritten(text, window, step) == WindowTransformText(text, window, step)
  {
    var n := |text|;
    CountsCompare(n, window, step);
    StepsBound(n, window, step);
    var fewer := AsWrittenCount(n, window, step);
    var more := WindowCount(n, window, step);
    if fewer > 0 {
      MulMonotone(fewer - 1, more - 1, step);
    }
    StridedPrefix(text, window, step, fewer, more);
  }

  /** With step 1 on a text at least one window long the code as written raises IndexError; the intended windows exist. */
  lemma StepOneRaises()
    ensures WindowTransformTextAsWritten("abcd", 2, 1) == IndexError
    ensures WindowTransformText("abcd", 2, 1) == Pairs(["ab", "bc"], ['c', 'd'])
  {
    var r := WindowTransformText("abcd", 2, 1);
    assert WindowCount(4, 2, 1) == 2;
    assert r.inputs[0] == "abcd"[0..2] == "ab";
    assert r.inputs[1] == "abcd"[1..3] == "bc";
    assert r.inputs == ["ab", "bc"];
  }

  /** With step 3 the code as written misses a window that has a following character. */
  lemma StepThreeDropsWindow()
    ensures WindowTransformTextAsWritten("abcd", 3, 3) == Pairs([], [])
    ensures WindowTransformText("abcd", 3, 3) == Pairs(["abc"], ['d'])
  {
    var r := WindowTransformText("abcd", 3, 3);
    assert WindowCount(4, 3, 3) == 1;
    assert Steps(4, 3, 3) == 0;
    assert r.inputs[0] == "abcd"[0..3] == "abc";
    assert r.inputs == ["abc"];
  }

  /** The outcome of window_transform_series: the windows X and their one-element targets y. */
  datatype SeriesPairs<T> = SeriesPairs(x: seq<seq<T>>, y: seq<seq<T>>)

  /** window_transform_series (list part): a window at every start, followed by the element after it. */
  function WindowTransformSeries<T>(series: seq<T>, window: nat): (r: SeriesPairs<T>)
    ensures |r.x| == |r.y| == (if |series| > window then |series| - window else 0)
    ensures forall i :: 0 <= i < |r.x| ==> r.x[i] == series[i .. i + window] && r.y[i] == [series[i + window]]
  {
    var count := if |series| > window then |series| - window else 0;
    SeriesPairs(seq(count, i requires 0 <= i < count => series[i .. i + window]),
                seq(count, i requires 0 <= i < count => [series[i + window]]))
  }

  /** Each window is the previous one shifted by one, taking in the previous target. */
  lemma SeriesSlides<T>(series: seq<T>, window: nat, i: nat)
    requires window >= 1 && i + 1 < |WindowTransformSeries(series, window).x|
    ensures WindowTransformSeries(series, window).x[i + 1]
         == WindowTransformSeries(series, window).x[i][1..] + WindowTransformSeries(series, window).y[i]
  {
    var r := WindowTransformSeries(series, window);
    assert series[i + 1 .. i + 1 + window] == series[i .. i + window][1..] + [series[i + window]];
  }

  /** The targets, in order, after the first window give back the whole series. */
  function Targets<T>(y: seq<seq<T>>): seq<T>
    requires forall i :: 0 <= i < |y| ==> |y[i]| == 1
  {
    if y == [] then [] else [y[0][0]] + Targets(y[1..])
  }

  lemma {:induction false} TargetsAt<T>(series: seq<T>, window: nat, from: nat)
    requires |series| > window && from <= |series| - window
    ensures
      var y := WindowTransformSeries(series, window).y[from..];
      Targets(y) == series[window + from..]
    decreases |series| - window - from
  {
    var y := WindowTransformSeries(series, window).y;
    if from < |series| - window {
      TargetsAt(series, window, from + 1);
      assert y[from..][1..] == y[from + 1..];
      assert series[window + from..] == [series[window + from]] + series[window + from + 1..];
    }
  }

  /** The first window followed by every target rebuilds the series. */
  lemma SeriesRebuilt<T>(series: seq<T>, window: nat)
    requires |series| > window
    ensures WindowTransformSeries(series, window).x[0] + Targets(WindowTransformSeries(series, window).y) == series
  {
    TargetsAt(series, window, 0);
    assert WindowTransformSeries(series, window).y[0..] == WindowTransformSeries(series, window).y;
    assert series[..window] + series[window..] == series;
  }

  /** For step 1 the intended text windows are the series windows of the text. */
  lemma TextStepOneIsSeries(text: string, window: nat)
    ensures WindowTransformText(text, window, 1).inputs == WindowTransformSeries(text, window).x
    ensures forall k :: 0 <= k < |WindowTransformText(text, window, 1).outputs| ==>
      [WindowTransformText(text, window, 1).outputs[k]] == WindowTransformSeries(text, window).y[k]
  {
    var t := WindowTransformText(text, window, 1);
    var s := WindowTransformSeries(text, window);
    assert |t.inputs| == |s.x|;
    forall k | 0 <= k < |t.inputs| ensures t.inputs[k] == s.x[k] {
      assert k * 1 == k;
    }
  }
}
