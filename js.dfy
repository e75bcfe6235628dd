/** The few JavaScript runtime notions the model of src/store/api.js needs:
    an optional value (`undefined` or a value), the outcome of a call that may
    throw, and `String.prototype.split` with a one-character separator. */
module Js {

  /** A value that may be `undefined`. */
  datatype Option<T> = None | Some(value: T)

  /** The only exception the modelled code can raise: reading a property of
      `undefined` (`i.MessageId.split` when a message has no `MessageId`). */
  datatype JsError = TypeError

  /** The result of a JavaScript call: it returns a value or throws. */
  datatype Outcome<T> = Returned(value: T) | Threw(error: JsError)

  /** `s.split(sep)` for a one-character string `sep`: the maximal runs of
      characters between separators, in order. The result is never empty; a
      string without the separator gives `[s]`, and adjacent separators (or a
      separator at either end) give empty segments. */
  function Split(s: string, sep: char): (r: seq<string>)
    ensures |r| >= 1
    ensures forall i :: 0 <= i < |r| ==> sep !in r[i]
    decreases |s|
  {
    if |s| == 0 then [""]
    else
      var rest := Split(s[1..], sep);
      if s[0] == sep then [""] + rest
      else [[s[0]] + rest[0]] + rest[1..]
  }

  /** `ws.join(sep)`: the segments with one separator between neighbours. */
  function Join(ws: seq<string>, sep: char): string
    requires |ws| >= 1
  {
    if |ws| == 1 then ws[0] else ws[0] + [sep] + Join(ws[1..], sep)
  }

  /** `s` ends with `suffix`. */
  predicate EndsWith(s: string, suffix: string)
  {
    |suffix| <= |s| && s[|s| - |suffix|..] == suffix
  }

  /** The number of occurrences of `c` in `s`. */
  function Occurrences(s: string, c: char): nat
  {
    if |s| == 0 then 0 else (if s[0] == c then 1 else 0) + Occurrences(s[1..], c)
  }

  /** Joining the segments again gives back the split string. */
  lemma {:induction false} JoinSplit(s: string, sep: char)
    ensures Join(Split(s, sep), sep) == s
    decreases |s|
  {
    if |s| > 0 {
      var rest := Split(s[1..], sep);
      JoinSplit(s[1..], sep);
      if s[0] == sep {
        assert ([""] + rest)[1..] == rest;
      } else if |rest| > 1 {
        var r := [[s[0]] + rest[0]] + rest[1..];
        assert r[1..] == rest[1..];
        assert Join(rest, sep) == rest[0] + [sep] + Join(rest[1..], sep);
        assert s == [s[0]] + s[1..];
      } else {
        assert s == [s[0]] + s[1..];
      }
    }
  }

  /** Splitting at a separator splits the two sides independently. */
  lemma {:induction false} SplitConcat(a: string, b: string, sep: char)
    ensures Split(a + [sep] + b, sep) == Split(a, sep) + Split(b, sep)
    decreases |a|
  {
    var s := a + [sep] + b;
    if |a| == 0 {
      assert s[1..] == b;
    } else {
      assert s[1..] == a[1..] + [sep] + b;
      SplitConcat(a[1..], b, sep);
      var left := Split(a[1..], sep);
      var rest := Split(s[1..], sep);
      assert rest == left + Split(b, sep);
      if a[0] != sep {
        assert rest[0] == left[0];
        assert rest[1..] == left[1..] + Split(b, sep);
      }
    }
  }

  /** A string without the separator is its own single segment. */
  lemma {:induction false} SplitWithoutSeparator(s: string, sep: char)
    requires sep !in s
    ensures Split(s, sep) == [s]
    decreases |s|
  {
    if |s| > 0 {
      assert sep !in s[1..] by {
        forall i | 0 <= i < |s[1..]| ensures s[1..][i] != sep { assert s[1..][i] == s[i + 1]; }
      }
      SplitWithoutSeparator(s[1..], sep);
      assert s == [s[0]] + s[1..];
    }
  }

  /** Splitting a join of separator-free segments gives the segments back. */
  lemma {:induction false} SplitJoin(ws: seq<string>, sep: char)
    requires |ws| >= 1
    requires forall i :: 0 <= i < |ws| ==> sep !in ws[i]
    ensures Split(Join(ws, sep), sep) == ws
    decreases |ws|
  {
    SplitWithoutSeparator(ws[0], sep);
    if |ws| > 1 {
      SplitJoin(ws[1..], sep);
      SplitConcat(ws[0], Join(ws[1..], sep), sep);
      assert ws == [ws[0]] + ws[1..];
    }
  }

  /** There is one segment more than there are separators. */
  lemma {:induction false} SplitLength(s: string, sep: char)
    ensures |Split(s, sep)| == Occurrences(s, sep) + 1
    decreases |s|
  {
    if |s| > 0 {
      SplitLength(s[1..], sep);
    }
  }

  /** The first segment is what precedes the first separator: it is the whole
      string when there is a single segment, and is followed by a separator
      otherwise. */
  lemma {:induction false} SplitFirst(s: string, sep: char)
    ensures |Split(s, sep)| == 1 ==> Split(s, sep)[0] == s
    ensures |Split(s, sep)| > 1 ==> Split(s, sep)[0] + [sep] <= s
    decreases |s|
  {
    if |s| > 0 {
      SplitFirst(s[1..], sep);
      assert s == [s[0]] + s[1..];
    }
  }

  /** The last segment is what follows the last separator: it is the whole
      string when there is a single segment, and is preceded by a separator
      otherwise. */
  lemma {:induction false} SplitLast(s: string, sep: char)
    ensures |Split(s, sep)| == 1 ==> Split(s, sep)[0] == s
    ensures |Split(s, sep)| > 1 ==> EndsWith(s, [sep] + Split(s, sep)[|Split(s, sep)| - 1])
    decreases |s|
  {
    if |s| > 0 {
      SplitLast(s[1..], sep);
      var rest := Split(s[1..], sep);
      var last := rest[|rest| - 1];
      assert s == [s[0]] + s[1..];
      if |rest| > 1 || s[0] == sep {
        assert Split(s, sep)[|Split(s, sep)| - 1] == last;
        if |rest| == 1 {
          assert s == [sep] + last;
        } else {
          assert s[|s| - |[sep] + last|..] == s[1..][|s[1..]| - |[sep] + last|..];
        }
      }
    }
  }
}
