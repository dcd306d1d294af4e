/**
 * The glyph sampler of nextWord: the stride over the RGBA pixel buffer of
 * the rendered word, the Fisher-Yates shuffle of the sampled offsets, the
 * conversion of an offset into pixel coordinates and the filtering of
 * opaque samples; also the pure helpers around it (the word key, the font
 * size and the per-word colour).
 */
module Glyph {
  import opened Geometry

  /** One element of the RGBA buffer returned by getImageData. */
  type Byte = x: int | 0 <= x < 256

  /** Only one pixel in `PixelSteps` is tested. */
  const PixelSteps: nat := 4

  /** Byte distance between two sampled pixels (4 bytes per pixel). */
  const Stride: nat := PixelSteps * 4

  /** An integer pixel position on the canvas. */
  datatype Pixel = Pixel(x: nat, y: nat)

  /** The sampled byte offsets of a buffer of `len` bytes: 0, 16, 32, ... below `len`. */
  function SampleOffsets(len: nat): seq<nat>
  {
    seq((len + Stride - 1) / Stride, k => Stride * k)
  }

  /** Collecting the sampled byte offsets into coordsIndexes. */
  method CollectOffsets(len: nat) returns (coords: seq<nat>)
    ensures coords == SampleOffsets(len)
    ensures |coords| == (len + Stride - 1) / Stride
    ensures forall k :: 0 <= k < |coords| ==> coords[k] % Stride == 0 && coords[k] < len
  {
    coords := [];
    var i := 0;
    while i < len
      invariant i == Stride * |coords|
      invariant i <= len + Stride - 1
      invariant forall k :: 0 <= k < |coords| ==> coords[k] == Stride * k && coords[k] < len
    {
      coords := coords + [i];
      i := i + Stride;
    }
  }

  /**
   * Every offset of a shuffled sample list is a sampled offset, so the
   * alpha byte three bytes further on lies inside a buffer of whole pixels.
   */
  lemma {:induction false} ShuffledOffsetsFit(len: nat, choices: seq<nat>)
    requires len % 4 == 0 && ChoicesOk(choices, |SampleOffsets(len)|)
    ensures var order := Shuffled<nat>(SampleOffsets(len), choices);
      forall k :: 0 <= k < |order| ==> order[k] % Stride == 0 && order[k] + 3 < len
  {
    var offsets := SampleOffsets(len);
    var order := Shuffled<nat>(offsets, choices);
    ShuffleDownPermutes(offsets, choices, |offsets|);
    forall k | 0 <= k < |order|
      ensures order[k] % Stride == 0 && order[k] + 3 < len
    {
      assert order[k] in multiset(order);
      assert order[k] in offsets;
      var m :| 0 <= m < |offsets| && offsets[m] == order[k];
      OffsetFits(len, m);
    }
  }

  lemma OffsetFits(len: nat, m: nat)
    requires len % 4 == 0 && m < (len + Stride - 1) / Stride
    ensures (Stride * m) % Stride == 0 && Stride * m + 3 < len
  {
    assert Stride * (m + 1) <= len + Stride - 1;
    var q := len / 4;
    assert len == 4 * q;
    assert 4 * m < q;
  }

  /** Exchange of two positions of a sequence. */
  function Swap<T>(s: seq<T>, i: nat, j: nat): (r: seq<T>)
    requires i < |s| && j < |s|
    ensures |r| == |s|
  {
    s[i := s[j]][j := s[i]]
  }

  /** The choices handed to the shuffle: choice `i` lies in [0, i], as Math.floor(Math.random() * (i + 1)) does. */
  predicate ChoicesOk(choices: seq<nat>, n: nat)
  {
    |choices| == n && forall i :: 0 < i < n ==> choices[i] <= i
  }

  /**
   * The Fisher-Yates pass over the first `n` positions: position n-1 is
   * exchanged with position choices[n-1], then the first n-1 positions are
   * processed the same way, down to position 1.
   */
  function ShuffleDown<T>(s: seq<T>, choices: seq<nat>, n: nat): (r: seq<T>)
    requires n <= |s| && ChoicesOk(choices, |s|)
    ensures |r| == |s|
    decreases n
  {
    if n <= 1 then s else ShuffleDown(Swap(s, n - 1, choices[n - 1]), choices, n - 1)
  }

  /** The whole Fisher-Yates shuffle. */
  function Shuffled<T>(s: seq<T>, choices: seq<nat>): seq<T>
    requires ChoicesOk(choices, |s|)
  {
    ShuffleDown(s, choices, |s|)
  }

  lemma SwapPermutes<T>(s: seq<T>, i: nat, j: nat)
    requires i < |s| && j < |s|
    ensures multiset(Swap(s, i, j)) == multiset(s)
  {
    if i != j {
      var t := s[i := s[j]];
      assert multiset(t) == multiset(s) - multiset{s[i]} + multiset{s[j]};
      assert multiset(t[j := s[i]]) == multiset(t) - multiset{s[j]} + multiset{s[i]};
    }
  }

  /** The shuffle only reorders: the result is a permutation of its input. */
  lemma {:induction false} ShuffleDownPermutes<T>(s: seq<T>, choices: seq<nat>, n: nat)
    requires n <= |s| && ChoicesOk(choices, |s|)
    ensures multiset(ShuffleDown(s, choices, n)) == multiset(s)
    decreases n
  {
    if n > 1 {
      SwapPermutes(s, n - 1, choices[n - 1]);
      ShuffleDownPermutes(Swap(s, n - 1, choices[n - 1]), choices, n - 1);
    }
  }

  /** The shuffle of coordsIndexes, in place on the array. */
  method Shuffle(a: array<nat>, choices: seq<nat>)
    requires ChoicesOk(choices, a.Length)
    modifies a
    ensures a[..] == Shuffled(old(a[..]), choices)
    ensures multiset(a[..]) == multiset(old(a[..]))
  {
    var i := a.Length - 1;
    while i > 0
      invariant -1 <= i < a.Length
      invariant a.Length > 0 ==> 0 <= i
      invariant ShuffleDown(a[..], choices, i + 1) == Shuffled(old(a[..]), choices)
    {
      var j := choices[i];
      a[i], a[j] := a[j], a[i];
      i := i - 1;
    }
    ShuffleDownPermutes(old(a[..]), choices, a.Length);
  }

  /** The pixel a byte offset belongs to: x = (offset / 4) % width, y = floor(offset / 4 / width). */
  function PixelOf(offset: nat, width: nat): (p: Pixel)
    requires width > 0
    ensures p.x < width
    ensures 4 * (p.y * width + p.x) + offset % 4 == offset
  {
    Pixel((offset / 4) % width, (offset / 4) / width)
  }

  /** An offset inside a width x height RGBA buffer names a pixel on the canvas. */
  lemma {:induction false} PixelOnCanvas(offset: nat, width: nat, height: nat)
    requires width > 0 && offset < width * height * 4
    ensures PixelOf(offset, width).y < height
  {
    var p := PixelOf(offset, width);
    if p.y >= height {
      assert p.y * width >= height * width by {
        MulMonotone(height, p.y, width);
      }
      assert false;
    }
  }

  lemma MulMonotone(a: nat, b: nat, c: nat)
    requires a <= b
    ensures a * c <= b * c
  {
  }

  /** Whether the sampled pixel at `offset` is covered by the glyph (non-zero alpha). */
  predicate Opaque(pixels: seq<Byte>, offset: nat)
    requires offset + 3 < |pixels|
  {
    pixels[offset + 3] > 0
  }

  predicate OffsetsFit(order: seq<nat>, len: nat)
  {
    forall k :: 0 <= k < |order| ==> order[k] + 3 < len
  }

  /** The coordinates of the opaque samples, in the order the offsets are visited. */
  function Targets(pixels: seq<Byte>, order: seq<nat>, width: nat): (ts: seq<Pixel>)
    requires width > 0 && OffsetsFit(order, |pixels|)
    ensures |ts| <= |order|
  {
    if order == [] then []
    else
      var last := order[|order| - 1];
      Targets(pixels, order[..|order| - 1], width) + (if Opaque(pixels, last) then [PixelOf(last, width)] else [])
  }

  /** Visiting one more offset adds its pixel exactly when it is opaque. */
  lemma TargetsSnoc(pixels: seq<Byte>, order: seq<nat>, k: nat, width: nat)
    requires width > 0 && OffsetsFit(order, |pixels|) && k < |order|
    ensures Targets(pixels, order[..k + 1], width)
         == Targets(pixels, order[..k], width) + (if Opaque(pixels, order[k]) then [PixelOf(order[k], width)] else [])
  {
    assert order[..k + 1][..k] == order[..k];
  }

  /** The targets are exactly the pixels of the opaque samples. */
  lemma {:induction false} TargetsMembers(pixels: seq<Byte>, order: seq<nat>, width: nat)
    requires width > 0 && OffsetsFit(order, |pixels|)
    ensures forall t :: t in Targets(pixels, order, width) <==>
      exists k :: 0 <= k < |order| && Opaque(pixels, order[k]) && t == PixelOf(order[k], width)
  {
    if order != [] {
      var n := |order| - 1;
      var init := order[..n];
      TargetsMembers(pixels, init, width);
      forall t
        ensures t in Targets(pixels, order, width) <==>
          exists k :: 0 <= k < |order| && Opaque(pixels, order[k]) && t == PixelOf(order[k], width)
      {
        if t in Targets(pixels, order, width) {
          if t in Targets(pixels, init, width) {
            var k :| 0 <= k < |init| && Opaque(pixels, init[k]) && t == PixelOf(init[k], width);
            assert order[k] == init[k];
          } else {
            assert Opaque(pixels, order[n]) && t == PixelOf(order[n], width);
          }
        }
        if exists k :: 0 <= k < |order| && Opaque(pixels, order[k]) && t == PixelOf(order[k], width) {
          var k :| 0 <= k < |order| && Opaque(pixels, order[k]) && t == PixelOf(order[k], width);
          if k < n {
            assert init[k] == order[k];
          }
        }
      }
    }
  }

  /**
   * Every target lies on the canvas, the targets are exactly the pixels of
   * the opaque samples, and there is one target per opaque sample.
   */
  lemma TargetsOnCanvas(pixels: seq<Byte>, order: seq<nat>, width: nat, height: nat)
    requires width > 0 && |pixels| == width * height * 4 && OffsetsFit(order, |pixels|)
    ensures forall t :: t in Targets(pixels, order, width) ==> t.x < width && t.y < height
    ensures forall t :: t in Targets(pixels, order, width) <==>
      exists k :: 0 <= k < |order| && Opaque(pixels, order[k]) && t == PixelOf(order[k], width)
    ensures |Targets(pixels, order, width)| == |set k | 0 <= k < |order| && Opaque(pixels, order[k])|
  {
    TargetsMembers(pixels, order, width);
    TargetsCount(pixels, order, width, height);
  }

  lemma {:induction false} TargetsCount(pixels: seq<Byte>, order: seq<nat>, width: nat, height: nat)
    requires width > 0 && |pixels| == width * height * 4 && OffsetsFit(order, |pixels|)
    ensures forall t :: t in Targets(pixels, order, width) ==> t.x < width && t.y < height
    ensures |Targets(pixels, order, width)| == |set k | 0 <= k < |order| && Opaque(pixels, order[k])|
  {
    if order != [] {
      var n := |order| - 1;
      var init := order[..n];
      TargetsCount(pixels, init, width, height);
      PixelOnCanvas(order[n], width, height);
      var before := set k | 0 <= k < n && Opaque(pixels, init[k]);
      var after := set k | 0 <= k < |order| && Opaque(pixels, order[k]);
      assert before == set k | 0 <= k < n && Opaque(pixels, order[k]);
      if Opaque(pixels, order[n]) {
        assert after == before + {n};
      } else {
        assert after == before;
      }
    }
  }

  /** The opaque samples of a rendered word, in the shuffled order nextWord visits them. */
  function WordTargets(pixels: seq<Byte>, choices: seq<nat>, width: nat): (ts: seq<Pixel>)
    requires width > 0 && |pixels| % 4 == 0 && ChoicesOk(choices, |SampleOffsets(|pixels|)|)
    ensures |ts| <= |SampleOffsets(|pixels|)|
  {
    ShuffledOffsetsFit(|pixels|, choices);
    Targets(pixels, Shuffled<nat>(SampleOffsets(|pixels|), choices), width)
  }

  /** A buffer of whole RGBA pixels has a length divisible by 4. */
  lemma WholePixels(width: nat, height: nat, len: nat)
    requires len == width * height * 4
    ensures len % 4 == 0
  {
    var area := width * height;
    assert len == area * 4;
  }

  /** The shuffled offsets of a rendered canvas all fit its buffer, and they give the word's targets. */
  lemma WordOrder(pixels: seq<Byte>, choices: seq<nat>, width: nat, height: nat)
    requires width > 0 && |pixels| == width * height * 4
    requires ChoicesOk(choices, |SampleOffsets(|pixels|)|)
    ensures |pixels| % 4 == 0
    ensures var order := Shuffled<nat>(SampleOffsets(|pixels|), choices);
      OffsetsFit(order, |pixels|) &&
      Targets(pixels, order, width) == WordTargets(pixels, choices, width)
  {
    WholePixels(width, height, |pixels|);
    ShuffledOffsetsFit(|pixels|, choices);
  }

  /**
   * A word's targets all lie on the canvas; they are exactly the pixels of
   * the opaque samples, one per opaque sample.
   */
  lemma WordTargetsOnCanvas(pixels: seq<Byte>, choices: seq<nat>, width: nat, height: nat)
    requires width > 0 && |pixels| == width * height * 4
    requires ChoicesOk(choices, |SampleOffsets(|pixels|)|)
    ensures |pixels| % 4 == 0
    ensures var order := Shuffled<nat>(SampleOffsets(|pixels|), choices);
      var ts := WordTargets(pixels, choices, width);
      (forall t :: t in ts ==> t.x < width && t.y < height) &&
      (forall t :: t in ts <==> exists k :: 0 <= k < |order| && order[k] + 3 < |pixels| &&
                                   Opaque(pixels, order[k]) && t == PixelOf(order[k], width)) &&
      |ts| == |set k | 0 <= k < |order| && order[k] + 3 < |pixels| && Opaque(pixels, order[k])|
  {
    WholePixels(width, height, |pixels|);
    ShuffledOffsetsFit(|pixels|, choices);
    var order := Shuffled<nat>(SampleOffsets(|pixels|), choices);
    TargetsOnCanvas(pixels, order, width, height);
    assert (set k | 0 <= k < |order| && order[k] + 3 < |pixels| && Opaque(pixels, order[k]))
        == (set k | 0 <= k < |order| && Opaque(pixels, order[k]));
  }

  /** Font size of the rendered word: floor(0.15 * width), clamped to [90, 200]. */
  function FontSize(width: nat): (size: nat)
    ensures 90 <= size <= 200
    ensures 90 <= width * 15 / 100 <= 200 ==> size == width * 15 / 100
    ensures width * 15 / 100 < 90 ==> size == 90
    ensures width * 15 / 100 > 200 ==> size == 200
  {
    if width * 15 / 100 < 90 then 90
    else if width * 15 / 100 > 200 then 200
    else width * 15 / 100
  }

  /** A wider canvas never gets a smaller font. */
  lemma FontSizeMonotone(w1: nat, w2: nat)
    requires w1 <= w2
    ensures FontSize(w1) <= FontSize(w2)
  {
    assert w1 * 15 <= w2 * 15;
  }

  /** The characters String.prototype.trim removes (white space and line terminators). */
  predicate IsSpace(c: char)
  {
    var n := c as int;
    (0x09 <= n <= 0x0D) || n == 0x20 || n == 0xA0 || n == 0x1680 || (0x2000 <= n <= 0x200A) ||
    n == 0x2028 || n == 0x2029 || n == 0x202F || n == 0x205F || n == 0x3000 || n == 0xFEFF
  }

  /** String.prototype.trimStart: drop the leading white space. */
  function TrimStart(s: string): string
  {
    if s != [] && IsSpace(s[0]) then TrimStart(s[1..]) else s
  }

  /** String.prototype.trimEnd: drop the trailing white space. */
  function TrimEnd(s: string): string
  {
    if s != [] && IsSpace(s[|s| - 1]) then TrimEnd(s[..|s| - 1]) else s
  }

  function UpperChar(c: char): char
  {
    if 'a' <= c <= 'z' then (c as int - 'a' as int + 'A' as int) as char else c
  }

  /** toUpperCase on the ASCII letters; every other character is kept. */
  function ToUpper(s: string): string
  {
    seq(|s|, i requires 0 <= i < |s| => UpperChar(s[i]))
  }

  /** TrimStart removes exactly a leading run of white space. */
  lemma {:induction false} TrimStartSpec(s: string)
    ensures var r := TrimStart(s);
      |r| <= |s| && r == s[|s| - |r|..] && (r == [] || !IsSpace(r[0])) &&
      forall i :: 0 <= i < |s| - |r| ==> IsSpace(s[i])
  {
    if s != [] && IsSpace(s[0]) {
      var tail := s[1..];
      TrimStartSpec(tail);
      var r := TrimStart(tail);
      assert tail[|tail| - |r|..] == s[|s| - |r|..];
      forall i | 0 <= i < |s| - |r| ensures IsSpace(s[i]) {
        if i > 0 {
          assert s[i] == tail[i - 1];
        }
      }
    }
  }

  /** TrimEnd removes exactly a trailing run of white space. */
  lemma {:induction false} TrimEndSpec(s: string)
    ensures var r := TrimEnd(s);
      |r| <= |s| && r == s[..|r|] && (r == [] || !IsSpace(r[|r| - 1])) &&
      forall i :: |r| <= i < |s| ==> IsSpace(s[i])
  {
    if s != [] && IsSpace(s[|s| - 1]) {
      var init := s[..|s| - 1];
      TrimEndSpec(init);
      var r := TrimEnd(init);
      assert init[..|r|] == s[..|r|];
      forall i | |r| <= i < |s| ensures IsSpace(s[i]) {
        if i < |s| - 1 {
          assert s[i] == init[i];
        }
      }
    }
  }

  /**
   * Upper-casing keeps the length, turns each ASCII lower-case letter into
   * its capital (32 code points lower) and keeps every other character.
   */
  lemma ToUpperSpec(s: string)
    ensures |ToUpper(s)| == |s| && forall i :: 0 <= i < |s| ==> !('a' <= ToUpper(s)[i] <= 'z')
    ensures forall i :: 0 <= i < |s| && 'a' <= s[i] <= 'z' ==> ToUpper(s)[i] as int == s[i] as int - 32
    ensures forall i :: 0 <= i < |s| && !('a' <= s[i] <= 'z') ==> ToUpper(s)[i] == s[i]
  {
  }

  /** word.trim().toUpperCase(): the key the colour table and the schedule look words up by. */
  function CleanKey(word: string): string
  {
    ToUpper(TrimEnd(TrimStart(word)))
  }

  /** The key neither starts nor ends with white space, and cleaning it again changes nothing. */
  lemma CleanKeyCanonical(word: string)
    ensures var k := CleanKey(word);
      (k == [] || (!IsSpace(k[0]) && !IsSpace(k[|k| - 1]))) && CleanKey(k) == k
  {
    var s := TrimStart(word);
    TrimStartSpec(word);
    var t := TrimEnd(s);
    TrimEndSpec(s);
    var k := CleanKey(word);
    ToUpperSpec(t);
    assert forall i :: 0 <= i < |t| ==> (IsSpace(k[i]) <==> IsSpace(t[i]));
    assert TrimStart(k) == k;
    assert TrimEnd(k) == k;
    ToUpperSpec(k);
    assert ToUpper(k) == k;
  }

  /** The colour a word's particles blend to; `draw` is the random fallback for other words. */
  function WordColor(key: string, wordIndex: nat, draw: (Unit, Unit, Unit)): (c: Rgb)
    ensures InByteRange(c)
  {
    if key == "FERNANDO" || key == "VERISSIMO" then Rgb(70.0, 170.0, 255.0)
    else if key == "FABIANO" || key == "LANA" then Rgb(255.0, 140.0, 60.0)
    else if key == "SCARLET" then
      (if wordIndex == 0 then Rgb(40.0, 120.0, 255.0) else Rgb(220.0, 20.0, 60.0))
    else Rgb(draw.0 * 255.0, draw.1 * 255.0, draw.2 * 255.0)
  }

  /** The named words get a fixed colour: the random draw only matters for the others. */
  lemma KnownWordsFixed(key: string, wordIndex: nat, d1: (Unit, Unit, Unit), d2: (Unit, Unit, Unit))
    requires key in {"FERNANDO", "VERISSIMO", "FABIANO", "LANA", "SCARLET"}
    ensures WordColor(key, wordIndex, d1) == WordColor(key, wordIndex, d2)
  {
  }
}
