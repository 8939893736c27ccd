/** The names `video_to_frames` gives the frames it extracts:
    `os.path.join(output_folder, f"frame_{frame_count:05d}.png")`. */
module FrameNaming {
  import opened PyText

  datatype Option<T> = None | Some(value: T)

  /** The field width of the `:05d` format. */
  const Width: nat := 5

  function Pow10(w: nat): (r: nat)
    ensures r >= 1
  {
    if w == 0 then 1 else 10 * Pow10(w - 1)
  }

  predicate IsDigit(c: char)
  {
    '0' <= c <= '9'
  }

  predicate AllDigits(s: string)
  {
    forall i :: 0 <= i < |s| ==> IsDigit(s[i])
  }

  function DigitChar(d: nat): (c: char)
    requires d < 10
    ensures IsDigit(c)
  {
    ('0' as int + d) as char
  }

  /** `str(k)` for a non-negative integer: its decimal digits, most
      significant first, with no leading zero. */
  function Decimal(k: nat): (r: string)
    ensures |r| >= 1 && AllDigits(r)
    ensures r[0] == '0' ==> k == 0
  {
    if k < 10 then [DigitChar(k)] else Decimal(k / 10) + [DigitChar(k % 10)]
  }

  function Zeros(n: nat): (r: string)
    ensures |r| == n && AllDigits(r)
  {
    seq(n, _ => '0')
  }

  /** The `0<width>d` format applied to the digits of a non-negative
      number: '0's on the left up to `width` characters, never truncated. */
  function ZeroPad(digits: string, width: nat): string
  {
    if |digits| >= width then digits else Zeros(width - |digits|) + digits
  }

  /** `f"frame_{k:05d}.png"` */
  function FrameName(k: nat): string
  {
    "frame_" + ZeroPad(Decimal(k), Width) + ".png"
  }

  /** `os.path.join(output_folder, f"frame_{k:05d}.png")`: the last
      component of the path is the frame name. */
  function FramePath(folder: string, k: nat): string
  {
    Join(folder, FrameName(k))
  }

  /** The paths of the first `n` frames, in capture order. */
  function FramePaths(folder: string, n: nat): seq<string>
  {
    seq(n, k requires 0 <= k < n => FramePath(folder, k))
  }

  /** The k-th of the first `n` frame paths is the path of frame k. */
  lemma FramePathsAt(folder: string, n: nat)
    ensures |FramePaths(folder, n)| == n
    ensures forall k :: 0 <= k < n ==> FramePaths(folder, n)[k] == FramePath(folder, k)
  {
  }

  // ---------------------------------------------------------------------
  // Reading a frame name back: the inverse of FrameName
  // ---------------------------------------------------------------------

  /** The number a string of decimal digits denotes; leading zeros are
      allowed and do not change it. */
  function DigitsValue(s: string): nat
    requires AllDigits(s)
  {
    if s == [] then 0
    else DigitsValue(s[..|s| - 1]) * 10 + (s[|s| - 1] as int - '0' as int)
  }

  /** The frame index a name of the shape `frame_<digits>.png` carries, or
      None for any other name. */
  function FrameIndex(name: string): Option<nat>
  {
    if |name| >= 11 && name[..6] == "frame_" && name[|name| - 4..] == ".png"
       && AllDigits(name[6..|name| - 4])
    then Some(DigitsValue(name[6..|name| - 4]))
    else None
  }

  lemma {:induction false} DecimalValue(k: nat)
    ensures DigitsValue(Decimal(k)) == k
  {
    if k >= 10 {
      var s := Decimal(k);
      assert s[..|s| - 1] == Decimal(k / 10);
      DecimalValue(k / 10);
    }
  }

  lemma {:induction false} ZerosPrefixValue(m: nat, s: string)
    requires AllDigits(s)
    ensures DigitsValue(Zeros(m) + s) == DigitsValue(s)
  {
    if s == [] {
      assert Zeros(m) + s == Zeros(m);
      ZerosValue(m);
    } else {
      var t := Zeros(m) + s;
      assert t[..|t| - 1] == Zeros(m) + s[..|s| - 1];
      ZerosPrefixValue(m, s[..|s| - 1]);
    }
  }

  lemma {:induction false} ZerosValue(m: nat)
    ensures DigitsValue(Zeros(m)) == 0
  {
    if m > 0 {
      assert Zeros(m)[..m - 1] == Zeros(m - 1);
      ZerosValue(m - 1);
    }
  }

  /** Reading the index back from a frame name gives the index it was
      written with, for every index (also past five digits). */
  lemma FrameIndexOfName(k: nat)
    ensures FrameIndex(FrameName(k)) == Some(k)
  {
    var digits := ZeroPad(Decimal(k), Width);
    var name := FrameName(k);
    assert name[..6] == "frame_";
    assert name[|name| - 4..] == ".png";
    assert name[6..|name| - 4] == digits;
    DecimalValue(k);
    if |Decimal(k)| < Width {
      ZerosPrefixValue(Width - |Decimal(k)|, Decimal(k));
    }
  }

  /** Different frame indices give different file names. */
  lemma FrameNameInjective(i: nat, j: nat)
    ensures FrameName(i) == FrameName(j) <==> i == j
  {
    FrameIndexOfName(i);
    FrameIndexOfName(j);
  }

  /** The frame name is a plain file name: no separator, and no whitespace
      at either end for `strip()` to remove. */
  lemma FrameNameShape(k: nat)
    ensures var name := FrameName(k);
      && name != [] && name[0] == 'f' && '/' !in name
      && Strip(name) == name
  {
    var name := FrameName(k);
    var digits := ZeroPad(Decimal(k), Width);
    assert AllDigits(digits);
    assert forall c :: c in name ==> c in "frame_" || c in digits || c in ".png";
    assert name[|name| - 1] == 'g';
    StripNoSpaceEnds(name);
  }

  /** In one folder, the paths of different frames are different. */
  lemma FramePathInjective(folder: string, i: nat, j: nat)
    ensures FramePath(folder, i) == FramePath(folder, j) <==> i == j
  {
    FrameNameShape(i);
    FrameNameShape(j);
    JoinInjective(folder, FrameName(i), FrameName(j));
    FrameNameInjective(i, j);
  }

  // ---------------------------------------------------------------------
  // Lexical order of frame names against index order
  // ---------------------------------------------------------------------

  /** The last `w` decimal digits of `k`. */
  function Fixed(k: nat, w: nat): (r: string)
    ensures |r| == w
  {
    if w == 0 then [] else Fixed(k / 10, w - 1) + [DigitChar(k % 10)]
  }

  /** For numbers that fit in `w` digits, fixed-width digit strings compare
      as the numbers do. */
  lemma {:induction false} FixedOrder(i: nat, j: nat, w: nat)
    requires i < j < Pow10(w)
    ensures LexLt(Fixed(i, w), Fixed(j, w))
  {
    if w > 0 {
      var hi, hj := i / 10, j / 10;
      assert hj < Pow10(w - 1);
      if hi < hj {
        FixedOrder(hi, hj, w - 1);
        LexEqualLengthExtend(Fixed(hi, w - 1), Fixed(hj, w - 1), [DigitChar(i % 10)], [DigitChar(j % 10)]);
      } else {
        assert hi == hj && i % 10 < j % 10;
        LexCommonPrefix(Fixed(hi, w - 1), [DigitChar(i % 10)], [DigitChar(j % 10)]);
      }
    }
  }

  lemma {:induction false} FixedZero(m: nat)
    ensures Fixed(0, m) == Zeros(m)
  {
    if m > 0 {
      FixedZero(m - 1);
      assert Zeros(m) == Zeros(m - 1) + ['0'];
    }
  }

  lemma {:induction false} DecimalLength(k: nat, w: nat)
    requires 1 <= w && k < Pow10(w)
    ensures |Decimal(k)| <= w
  {
    if k >= 10 {
      assert w >= 2;
      DecimalLength(k / 10, w - 1);
    }
  }

  lemma {:induction false} FixedIsPadded(k: nat, w: nat)
    requires |Decimal(k)| <= w
    ensures Fixed(k, w) == Zeros(w - |Decimal(k)|) + Decimal(k)
  {
    if k < 10 {
      FixedZero(w - 1);
    } else {
      FixedIsPadded(k / 10, w - 1);
      assert Zeros(w - |Decimal(k)|) + Decimal(k)
          == (Zeros(w - 1 - |Decimal(k / 10)|) + Decimal(k / 10)) + [DigitChar(k % 10)];
    }
  }

  /** Below 10^5 the padded field is exactly five digits. */
  lemma PaddedIsFixed(k: nat)
    requires k < Pow10(Width)
    ensures ZeroPad(Decimal(k), Width) == Fixed(k, Width)
  {
    DecimalLength(k, Width);
    FixedIsPadded(k, Width);
  }

  /** For the first 100000 frames, name order is capture order, in both
      directions. */
  lemma FrameNameOrder(i: nat, j: nat)
    requires i < Pow10(Width) && j < Pow10(Width)
    ensures LexLt(FrameName(i), FrameName(j)) <==> i < j
  {
    PaddedIsFixed(i);
    PaddedIsFixed(j);
    var a, b := Fixed(i, Width), Fixed(j, Width);
    assert FrameName(i) == "frame_" + (a + ".png") && FrameName(j) == "frame_" + (b + ".png");
    LexCommonPrefix("frame_", a + ".png", b + ".png");
    if i < j {
      FixedOrder(i, j, Width);
      LexEqualLengthExtend(a, b, ".png", ".png");
    } else if j < i {
      FixedOrder(j, i, Width);
      LexEqualLengthExtend(b, a, ".png", ".png");
      LexLtAsymmetric(b + ".png", a + ".png");
    } else {
      assert !LexLt(a + ".png", a + ".png");
    }
  }

  /** At 100000 frames the 5-digit field overflows and lexical order stops
      following capture order. */
  lemma OrderBreaksPastWidth()
    ensures LexLt(FrameName(Pow10(Width)), FrameName(Pow10(Width) - 1))
  {
    assert Pow10(Width) == 100000;
    assert Decimal(100000) == "100000";
    assert Decimal(99999) == "99999";
    assert FrameName(100000) == "frame_" + "100000.png";
    assert FrameName(99999) == "frame_" + "99999.png";
    LexCommonPrefix("frame_", "100000.png", "99999.png");
  }

  /** In one folder, the order of frame paths is capture order. */
  lemma FramePathOrder(folder: string, i: nat, j: nat)
    requires i < Pow10(Width) && j < Pow10(Width)
    ensures LexLt(FramePath(folder, i), FramePath(folder, j)) <==> i < j
  {
    FrameNameShape(i);
    FrameNameShape(j);
    JoinOrder(folder, FrameName(i), FrameName(j));
    FrameNameOrder(i, j);
  }

  /** When the folder holds exactly the frames of this run (at most 100000),
      `sorted()` of its listing is capture order, whatever order the listing
      came in. */
  lemma SortedListingIsCaptureOrder(folder: string, n: nat, listing: seq<string>)
    requires n <= Pow10(Width)
    requires multiset(listing) == multiset(FramePaths(folder, n))
    ensures SortStrings(listing) == FramePaths(folder, n)
  {
    var paths := FramePaths(folder, n);
    forall i, j | 0 <= i < j < n
      ensures LexLt(paths[i], paths[j])
    {
      FramePathOrder(folder, i, j);
    }
    SortOfAscending(listing, paths);
  }
}
