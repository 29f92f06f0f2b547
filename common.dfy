/** Small value types shared by the glyph-atlas and text-layout model. */
module Common {

  /** A JavaScript value that may be absent (`undefined` or `null`). */
  datatype Option<+T> = None | Some(value: T) {
    function GetOr(default: T): T {
      match this
      case Some(v) => v
      case None => default
    }
  }

  /** A JavaScript number: either a finite value, or one of NaN, +Infinity, -Infinity. */
  datatype Scalar = Finite(value: real) | NonFinite

  /** An element of a `Uint8Array`. */
  newtype Byte = x: int | 0 <= x < 256

  /** The value a `Uint8Array` stores when a non-negative integer is written into it. */
  function ToUint8(x: nat): (b: Byte)
    ensures x < 256 ==> b as int == x
    ensures (b as int - x) % 256 == 0
  {
    (x % 256) as Byte
  }

  /** The characters occurring in `s`. */
  function CharsOf(s: string): set<char>
  {
    set c | c in s
  }

  lemma {:induction false} CharsOfPrefix(s: string)
    requires |s| > 0
    ensures CharsOf(s) == CharsOf(s[..|s| - 1]) + {s[|s| - 1]}
  {
    assert s == s[..|s| - 1] + [s[|s| - 1]];
  }

  lemma CharsOfSnoc(s: string, c: char)
    ensures CharsOf(s + [c]) == CharsOf(s) + {c}
  {
    CharsOfPrefix(s + [c]);
    assert (s + [c])[..|s|] == s;
  }

  /** A set of the characters seen so far, extended by the next character of the text. */
  lemma SeenStep(known: set<char>, done: string, c: char, seen: set<char>, seen': set<char>)
    requires seen == known + CharsOf(done)
    requires seen' == seen + {c}
    ensures seen' == known + CharsOf(done + [c])
  {
    CharsOfSnoc(done, c);
  }

  lemma TakeSnoc<T>(s: seq<T>, i: nat)
    requires i < |s|
    ensures s[..i + 1] == s[..i] + [s[i]]
  {
  }

  /** A sequence without repeated elements. */
  predicate Distinct<T(==)>(s: seq<T>)
  {
    forall i, j :: 0 <= i < j < |s| ==> s[i] != s[j]
  }

  /**
   * Font metrics in em, measured downwards from the top of the em box; always present are
   * the bottom of the glyph box and the alphabetic baseline.
   */
  type Metrics = m: map<string, real> | "bottom" in m && "baseline" in m && m["bottom"] >= 0.0
    witness map["bottom" := 0.0, "baseline" := 0.0]
}
