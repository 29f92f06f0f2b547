/**
 * The process-wide font registry `GlText.fonts`: one entry per size-independent font
 * string, caching the advance width of every character measured so far (in em) and the
 * kerning pairs detected for them (in thousandths of an em).
 */
module FontRegistry {
  import opened Common

  /** The font size, in pixels, at which characters are measured and metrics are taken. */
  const BaseFontSize: nat := 64

  /** A parsed CSS font; `family` is the family list already joined with ", ". */
  datatype Font = Font(family: string, weight: string, stretch: string, style: string, variant: string, size: nat)

  /** The style string handed to the metrics source: style, variant, weight and stretch. */
  function FontStyle(f: Font): string
  {
    f.style + " " + f.variant + " " + f.weight + " " + f.stretch
  }

  /**
   * The kerning keys requested when `c` is measured while `known` (which already holds `c`)
   * are the measured characters: both orders of `c` with each of them, itself included.
   */
  function PairsWith(known: set<char>, c: char): (ps: set<string>)
    ensures forall b :: b in known ==> [b, c] in ps && [c, b] in ps
    ensures forall p :: p in ps ==> |p| == 2 && ((p[1] == c && p[0] in known) || (p[0] == c && p[1] in known))
  {
    (set b | b in known :: [b, c]) + (set b | b in known :: [c, b])
  }

  /** The ordered pairs over `all` that involve at least one character outside `known`. */
  function NewPairs(known: set<char>, all: set<char>): set<string>
  {
    set a, b | a in all && b in all && !(a in known && b in known) :: [a, b]
  }

  function UnionAll(rs: seq<set<string>>): set<string>
  {
    if |rs| == 0 then {} else UnionAll(rs[..|rs| - 1]) + rs[|rs| - 1]
  }

  /**
   * The characters of `s` that are not in `known`, each once, in the order of their first
   * occurrence in `s`.
   */
  function Unseen(known: set<char>, s: string): seq<char>
    decreases |s|
  {
    if |s| == 0 then []
    else
      var prev := s[..|s| - 1];
      var c := s[|s| - 1];
      if c in known || c in CharsOf(prev) then Unseen(known, prev) else Unseen(known, prev) + [c]
  }

  /**
   * The kerning requests of one measuring pass with kerning on, in order: one per newly
   * measured character, made right after its width is stored.
   */
  function Requests(known: set<char>, s: string): seq<set<string>>
    decreases |s|
  {
    if |s| == 0 then []
    else
      var prev := s[..|s| - 1];
      var c := s[|s| - 1];
      var k := known + CharsOf(prev);
      Requests(known, prev) + (if c in k then [] else [PairsWith(k + {c}, c)])
  }

  /** Extending the text by one character lists that character when it is new. */
  lemma UnseenSnoc(known: set<char>, s: string, c: char)
    ensures Unseen(known, s + [c]) == Unseen(known, s) + (if c in known + CharsOf(s) then [] else [c])
  {
    assert (s + [c])[..|s|] == s;
  }

  /** Extending the text by one character requests its pairs when it is new. */
  lemma RequestsSnoc(known: set<char>, s: string, c: char)
    ensures var k := known + CharsOf(s);
      Requests(known, s + [c]) == Requests(known, s) + (if c in k then [] else [PairsWith(k + {c}, c)])
  {
    assert (s + [c])[..|s|] == s;
  }

  /** A log of unseen characters, extended by the next character of the text when it is new. */
  lemma UnseenLogStep(known: set<char>, done: string, c: char, seen: set<char>,
                      base: seq<char>, log: seq<char>, log': seq<char>)
    requires seen == known + CharsOf(done)
    requires log == base + Unseen(known, done)
    requires log' == log + (if c in seen then [] else [c])
    ensures log' == base + Unseen(known, done + [c])
  {
    UnseenSnoc(known, done, c);
    assert log' == base + (Unseen(known, done) + (if c in seen then [] else [c]));
  }

  /** A log of kerning requests, extended by the request for the next character when it is new. */
  lemma RequestsLogStep(known: set<char>, done: string, c: char, seen: set<char>, kerningOn: bool,
                        base: seq<set<string>>, log: seq<set<string>>, log': seq<set<string>>)
    requires seen == known + CharsOf(done)
    requires log == base + (if kerningOn then Requests(known, done) else [])
    requires log' == log + (if kerningOn && c !in seen then [PairsWith(seen + {c}, c)] else [])
    ensures log' == base + (if kerningOn then Requests(known, done + [c]) else [])
  {
    RequestsSnoc(known, done, c);
    if kerningOn {
      assert log' == base + (Requests(known, done) + (if c !in seen then [PairsWith(seen + {c}, c)] else []));
    }
  }

  /** The index of the first occurrence of `c` in `s`. */
  function FirstIndex(s: string, c: char): (i: nat)
    requires c in s
    ensures i < |s| && s[i] == c && c !in s[..i]
    decreases |s|
  {
    var prev := s[..|s| - 1];
    if c in prev then
      var i := FirstIndex(prev, c);
      assert s[..i] == prev[..i];
      i
    else |s| - 1
  }

  /** A character is unseen exactly when it occurs in the text and is not already known. */
  lemma {:induction false} UnseenMembers(known: set<char>, s: string)
    ensures forall c :: c in Unseen(known, s) <==> c in s && c !in known
  {
    if |s| > 0 {
      UnseenMembers(known, s[..|s| - 1]);
      CharsOfPrefix(s);
    }
  }

  /** Each unseen character is listed once. */
  lemma {:induction false} UnseenDistinct(known: set<char>, s: string)
    ensures Distinct(Unseen(known, s))
  {
    if |s| > 0 {
      UnseenDistinct(known, s[..|s| - 1]);
      UnseenMembers(known, s[..|s| - 1]);
    }
  }

  /** Unseen characters are listed in the order in which they first occur in the text. */
  lemma {:induction false} UnseenInFirstOccurrenceOrder(known: set<char>, s: string)
    ensures forall c :: c in Unseen(known, s) ==> c in s
    ensures forall p, q :: 0 <= p < q < |Unseen(known, s)| ==>
      FirstIndex(s, Unseen(known, s)[p]) < FirstIndex(s, Unseen(known, s)[q])
  {
    UnseenMembers(known, s);
    if |s| > 0 {
      var prev := s[..|s| - 1];
      var c := s[|s| - 1];
      var u := Unseen(known, prev);
      UnseenInFirstOccurrenceOrder(known, prev);
      UnseenMembers(known, prev);
      forall x | x in prev
        ensures FirstIndex(s, x) == FirstIndex(prev, x)
      {
        FirstIndexExtend(prev, c, x);
      }
      if !(c in known || c in CharsOf(prev)) {
        assert s == prev + [c];
        forall p | 0 <= p < |u|
          ensures FirstIndex(s, u[p]) < FirstIndex(s, c)
        {
          assert c !in prev;
        }
      }
    }
  }

  lemma {:induction false} FirstIndexExtend(s: string, c: char, x: char)
    requires x in s
    ensures x in s + [c] && FirstIndex(s + [c], x) == FirstIndex(s, x)
  {
    assert (s + [c])[..|s + [c]| - 1] == s;
  }

  /** Measuring one more character `c` adds exactly its pairs with the characters now known. */
  lemma NewPairsStep(known: set<char>, k: set<char>, c: char)
    requires known <= k && c !in k
    ensures NewPairs(known, k + {c}) == NewPairs(known, k) + PairsWith(k + {c}, c)
  {
    var all := k + {c};
    forall p | p in NewPairs(known, all)
      ensures p in NewPairs(known, k) + PairsWith(all, c)
    {
      var a, b :| a in all && b in all && !(a in known && b in known) && p == [a, b];
      if a != c && b != c {
        assert p in NewPairs(known, k);
      }
    }
    forall p | p in PairsWith(all, c)
      ensures p in NewPairs(known, all)
    {
      assert p == [p[0], p[1]];
    }
  }

  lemma NoNewPairs(known: set<char>)
    ensures NewPairs(known, known) == {}
  {
    forall p | p in NewPairs(known, known)
      ensures false
    {
    }
  }

  lemma {:induction false} RequestsStep(known: set<char>, s: string)
    requires |s| > 0
    ensures var k := known + CharsOf(s[..|s| - 1]);
      UnionAll(Requests(known, s))
      == UnionAll(Requests(known, s[..|s| - 1])) + (if s[|s| - 1] in k then {} else PairsWith(k + {s[|s| - 1]}, s[|s| - 1]))
  {
    var prev := s[..|s| - 1];
    var c := s[|s| - 1];
    var k := known + CharsOf(prev);
    var rs := Requests(known, s);
    if c in k {
      assert rs == Requests(known, prev);
    } else {
      assert rs[..|rs| - 1] == Requests(known, prev);
    }
  }

  /**
   * The kerning requests of a pass ask for exactly the ordered pairs of measured characters
   * that involve at least one character measured during the pass.
   */
  lemma {:induction false} RequestsExactlyNewPairs(known: set<char>, s: string)
    ensures UnionAll(Requests(known, s)) == NewPairs(known, known + CharsOf(s))
  {
    if |s| == 0 {
      assert CharsOf(s) == {};
      assert known + CharsOf(s) == known;
      NoNewPairs(known);
    } else {
      var prev := s[..|s| - 1];
      var c := s[|s| - 1];
      var k := known + CharsOf(prev);
      RequestsExactlyNewPairs(known, prev);
      RequestsStep(known, s);
      CharsOfPrefix(s);
      if c !in k {
        NewPairsStep(known, k, c);
        assert known + CharsOf(s) == k + {c};
      } else {
        assert known + CharsOf(s) == k;
      }
    }
  }

  /** The kerning table built from a sequence of requests, later answers overriding earlier ones. */
  function Merged(kern: (string, set<string>) -> map<string, real>, family: string, requests: seq<set<string>>): map<string, real>
  {
    if |requests| == 0 then map[]
    else Merged(kern, family, requests[..|requests| - 1]) + kern(family, requests[|requests| - 1])
  }

  lemma {:induction false} MergedAppend(kern: (string, set<string>) -> map<string, real>, family: string,
                                        rs: seq<set<string>>, more: seq<set<string>>, r: set<string>)
    requires more == rs + [r]
    ensures Merged(kern, family, more) == Merged(kern, family, rs) + kern(family, r)
  {
    assert more[..|more| - 1] == rs;
  }

  /** One registry entry: a typeface and its size-independent width and kerning caches. */
  class FontEntry {
    const baseString: string
    const family: string
    const weight: string
    const stretch: string
    const style: string
    const variant: string
    const metrics: Metrics
    var width: map<char, real>
    var kerning: map<string, real>
    /** The characters measured for this entry, in the order they were measured. */
    ghost var measured: seq<char>
    /** The kerning requests made for this entry, in order. */
    ghost var requests: seq<set<string>>

    /**
     * Every cached width is the measurement at the base size divided by the base size, and
     * the kerning table is what the requests returned.
     */
    ghost predicate Valid(measure: (string, char) -> real, kern: (string, set<string>) -> map<string, real>)
      reads this
    {
      && (forall c :: c in width ==> width[c] == measure(baseString, c) / BaseFontSize as real)
      && kerning == Merged(kern, family, requests)
    }

    constructor (baseString: string, f: Font, metrics: Metrics)
      ensures this.baseString == baseString && this.metrics == metrics
      ensures family == f.family && weight == f.weight && stretch == f.stretch
      ensures style == f.style && variant == f.variant
      ensures width == map[] && kerning == map[] && measured == [] && requests == []
    {
      this.baseString := baseString;
      this.family := f.family;
      this.weight := f.weight;
      this.stretch := f.stretch;
      this.style := f.style;
      this.variant := f.variant;
      this.metrics := metrics;
      width := map[];
      kerning := map[];
      measured := [];
      requests := [];
    }

    /**
     * Caches the width of `c` if it has none yet and, with kerning on, requests the
     * kerning of both orders of `c` with every measured character, itself included.
     */
    method MeasureChar(c: char, kerningOn: bool,
                       measure: (string, char) -> real, kern: (string, set<string>) -> map<string, real>)
      requires Valid(measure, kern)
      modifies this`width, this`kerning, this`measured, this`requests
      ensures Valid(measure, kern)
      ensures c in width && width.Keys == old(width).Keys + {c}
      ensures c in old(width) ==>
        width == old(width) && kerning == old(kerning) && measured == old(measured) && requests == old(requests)
      ensures c !in old(width) ==> measured == old(measured) + [c]
      ensures c !in old(width) ==>
        requests == old(requests) + (if kerningOn then [PairsWith(old(width).Keys + {c}, c)] else [])
    {
      if c !in width {
        width := width[c := measure(baseString, c) / BaseFontSize as real];
        measured := measured + [c];
        if kerningOn {
          var pairs := PairsWith(width.Keys, c);
          MergedAppend(kern, family, requests, requests + [pairs], pairs);
          kerning := kerning + kern(family, pairs);
          requests := requests + [pairs];
        }
      }
    }
  }

  /**
   * `GlText.fonts` together with the services it relies on: the canvas measurement at a
   * font string, the kerning detector, the font-metrics source and the CSS font stringifier.
   */
  class Registry {
    const measure: (string, char) -> real
    const kern: (string, set<string>) -> map<string, real>
    const metricsOf: (string, string) -> Metrics
    const stringify: Font -> string
    var fonts: map<string, FontEntry>

    /** The entry under `k` is registered under its own base string and is consistent. */
    ghost predicate Holds(k: string)
      reads this, fonts.Values
      requires k in fonts
    {
      fonts[k].baseString == k && fonts[k].Valid(measure, kern)
    }

    ghost predicate Valid()
      reads this, fonts.Values
    {
      forall k {:trigger Holds(k)} :: k in fonts ==> Holds(k)
    }

    /**
     * Every entry is registered under its own base string and every entry other than `e`
     * is consistent; nothing is said about the caches of `e`, which may be changing.
     */
    ghost predicate ValidExcept(e: FontEntry)
      reads this, fonts.Values - {e}
    {
      forall k {:trigger HoldsExcept(k, e)} :: k in fonts ==> HoldsExcept(k, e)
    }

    /** The entry under `k` is registered under its own base string, and is consistent unless it is `e`. */
    ghost predicate HoldsExcept(k: string, e: FontEntry)
      reads this, fonts.Values - {e}
      requires k in fonts
    {
      fonts[k].baseString == k && (fonts[k] != e ==> fonts[k].Valid(measure, kern))
    }

    lemma Detach(e: FontEntry)
      requires Valid()
      ensures ValidExcept(e)
    {
      forall k | k in fonts
        ensures HoldsExcept(k, e)
      {
        assert Holds(k);
      }
    }

    lemma Attach(e: FontEntry)
      requires ValidExcept(e) && e.Valid(measure, kern)
      ensures Valid()
    {
      forall k | k in fonts
        ensures Holds(k)
      {
        assert HoldsExcept(k, e);
      }
    }

    constructor (measure: (string, char) -> real, kern: (string, set<string>) -> map<string, real>,
                 metricsOf: (string, string) -> Metrics, stringify: Font -> string)
      ensures Valid() && fonts == map[]
      ensures this.measure == measure && this.kern == kern
      ensures this.metricsOf == metricsOf && this.stringify == stringify
    {
      this.measure := measure;
      this.kern := kern;
      this.metricsOf := metricsOf;
      this.stringify := stringify;
      fonts := map[];
    }

    /** The registry key of a font: its string at the base size. */
    function BaseString(f: Font): string
    {
      stringify(f.(size := BaseFontSize))
    }

    /**
     * The entry for the base string of `f`: the existing one, or a new one with empty caches
     * and the metrics of its family and style, which is then registered.
     */
    method Resolve(f: Font) returns (entry: FontEntry)
      requires Valid()
      modifies this
      ensures Valid()
      ensures BaseString(f) in fonts && fonts[BaseString(f)] == entry
      ensures entry.baseString == BaseString(f) && entry.Valid(measure, kern)
      ensures forall k :: k in old(fonts) ==> k in fonts && fonts[k] == old(fonts)[k]
      ensures BaseString(f) in old(fonts) ==> fonts == old(fonts)
      ensures BaseString(f) !in old(fonts) ==> fonts == old(fonts)[BaseString(f) := entry] && fresh(entry)
      ensures BaseString(f) !in old(fonts) ==>
        entry.width == map[] && entry.kerning == map[] && entry.requests == []
        && entry.metrics == metricsOf(f.family, FontStyle(f))
      ensures BaseString(f) !in old(fonts) ==>
        entry.family == f.family && entry.weight == f.weight && entry.stretch == f.stretch
        && entry.style == f.style && entry.variant == f.variant
    {
      var key := BaseString(f);
      if key in fonts {
        entry := fonts[key];
        assert Holds(key);
      } else {
        entry := new FontEntry(key, f, metricsOf(f.family, FontStyle(f)));
        fonts := fonts[key := entry];
        forall k | k in fonts
          ensures Holds(k)
        {
          if k != key {
            assert old(Holds(k));
          }
        }
      }
    }
  }

}
