/**
 * Helpers of `utils/numberUtil.ts`: exact addition and multiplication of
 * possibly-falsy arguments, and digit grouping with thousands separators.
 */
module NumberUtil {
  import opened Wrappers

  // ---------------------------------------------------------------------
  // Exact arithmetic

  /**
   * An argument of `numAdd` / `numMultiply`: a numeric value, or `None` for
   * a falsy argument that is not a number (`""`, `undefined`).
   */
  type Arg = Option<real>

  /** `num || 0`: a falsy argument counts as 0. */
  function ValueOf(a: Arg): (r: real)
    ensures r == 0.0 <==> a.None? || a.value == 0.0
    ensures a.Some? ==> r == a.value
  {
    if a.Some? then a.value else 0.0
  }

  /** `numAdd`: the exact sum of the arguments' values. */
  function NumAdd(args: seq<Arg>): (r: real)
    ensures (forall i :: 0 <= i < |args| ==> ValueOf(args[i]) >= 0.0) ==> r >= 0.0
  {
    if args == [] then 0.0 else NumAdd(args[..|args| - 1]) + ValueOf(args[|args| - 1])
  }

  /** Adding a concatenation of argument lists adds their sums. */
  lemma {:induction false} NumAddAppend(a: seq<Arg>, b: seq<Arg>)
    ensures NumAdd(a + b) == NumAdd(a) + NumAdd(b)
    decreases |b|
  {
    if b == [] {
      assert a + b == a;
    } else {
      var init := b[..|b| - 1];
      assert (a + b)[..|a + b| - 1] == a + init;
      assert (a + b)[|a + b| - 1] == b[|b| - 1];
      NumAddAppend(a, init);
    }
  }

  /** A falsy argument anywhere in the list changes nothing. */
  lemma NumAddIgnoresFalsy(a: seq<Arg>, b: seq<Arg>)
    ensures NumAdd(a + [None] + b) == NumAdd(a + b)
  {
    NumAddAppend(a + [None], b);
    NumAddAppend(a, b);
    assert (a + [None])[..|a|] == a;
  }

  /** The product of the arguments' values. */
  ghost function Product(args: seq<Arg>): real
  {
    if args == [] then 1.0 else Product(args[..|args| - 1]) * ValueOf(args[|args| - 1])
  }

  /** `numMultiply`: `counter` starts at 1 and is multiplied by each argument in turn. */
  method NumMultiply(args: seq<Arg>) returns (counter: real)
    ensures counter == Product(args)
  {
    counter := 1.0;
    var i := 0;
    while i < |args|
      invariant 0 <= i <= |args|
      invariant counter == Product(args[..i])
    {
      assert args[..i + 1][..i] == args[..i];
      counter := counter * ValueOf(args[i]);
      i := i + 1;
    }
    assert args[..|args|] == args;
  }

  /** The product is 0 exactly when some argument is falsy or zero; with no argument it is 1. */
  lemma {:induction false} ProductZero(args: seq<Arg>)
    ensures args == [] ==> Product(args) == 1.0
    ensures Product(args) == 0.0 <==> exists i :: 0 <= i < |args| && ValueOf(args[i]) == 0.0
  {
    if args != [] {
      var init := args[..|args| - 1];
      ProductZero(init);
      var last := ValueOf(args[|args| - 1]);
      assert Product(args) == Product(init) * last;
      if Product(init) != 0.0 && last != 0.0 {
        assert Product(args) != 0.0;
        forall i | 0 <= i < |args| ensures ValueOf(args[i]) != 0.0 {
          if i < |init| { assert args[i] == init[i]; }
        }
      }
      if exists i :: 0 <= i < |init| && ValueOf(init[i]) == 0.0 {
        var i :| 0 <= i < |init| && ValueOf(init[i]) == 0.0;
        assert args[i] == init[i];
      }
    }
  }

  // ---------------------------------------------------------------------
  // Thousands separators

  predicate IsDigit(c: char)
  {
    '0' <= c <= '9'
  }

  predicate AllDigits(s: string)
  {
    forall k :: 0 <= k < |s| ==> IsDigit(s[k])
  }

  /** `\w` of a regular expression without the `u` flag. */
  predicate IsWordChar(c: char)
  {
    ('a' <= c <= 'z') || ('A' <= c <= 'Z') || IsDigit(c) || c == '_'
  }

  /** The length of the run of digits that starts at index `i`. */
  function DigitRun(s: string, i: nat): (n: nat)
    requires i <= |s|
    ensures i + n <= |s|
    decreases |s| - i
  {
    if i < |s| && IsDigit(s[i]) then 1 + DigitRun(s, i + 1) else 0
  }

  /** The run is maximal: digits throughout, and no digit just after it. */
  lemma {:induction false} DigitRunMaximal(s: string, i: nat)
    requires i <= |s|
    ensures forall k :: i <= k < i + DigitRun(s, i) ==> IsDigit(s[k])
    ensures i + DigitRun(s, i) < |s| ==> !IsDigit(s[i + DigitRun(s, i)])
    decreases |s| - i
  {
    if i < |s| && IsDigit(s[i]) {
      DigitRunMaximal(s, i + 1);
    }
  }

  /**
   * Whether `/\B(?=(\d{3})+(?!\d))/` matches at index `i < |s|`: the digit
   * run from `i` has a positive length divisible by 3 (so `s[i]` is a digit,
   * a word character), and `\B` then needs a word character just before.
   */
  predicate SeparatorAt(s: string, i: nat)
    requires i < |s|
    ensures SeparatorAt(s, i) ==> 0 < i && IsWordChar(s[i - 1]) && IsDigit(s[i])
    ensures SeparatorAt(s, i) ==> DigitRun(s, i) % 3 == 0
  {
    0 < i && IsWordChar(s[i - 1]) && DigitRun(s, i) > 0 && DigitRun(s, i) % 3 == 0
  }

  /** What the replacement puts before index `i`: a comma where the pattern matches. */
  function Sep(s: string, i: nat): (r: string)
    requires i < |s|
    ensures r == "," <==> SeparatorAt(s, i)
    ensures r == "" <==> !SeparatorAt(s, i)
  {
    if SeparatorAt(s, i) then "," else ""
  }

  /** The suffix from `i` with a comma put in front of each matching index. */
  function GroupFrom(s: string, i: nat): string
    requires i <= |s|
    decreases |s| - i
  {
    if i == |s| then "" else Sep(s, i) + [s[i]] + GroupFrom(s, i + 1)
  }

  /** `s.replace(/\B(?=(\d{3})+(?!\d))/g, ',')`. */
  function InsertSeparators(s: string): (r: string)
    ensures |r| >= |s|
  {
    GroupFromLength(s, 0);
    GroupFrom(s, 0)
  }

  /** Grouping only adds characters. */
  lemma {:induction false} GroupFromLength(s: string, i: nat)
    requires i <= |s|
    ensures |GroupFrom(s, i)| >= |s| - i
    decreases |s| - i
  {
    if i < |s| {
      GroupFromLength(s, i + 1);
    }
  }

  /** The text with every comma removed. */
  function StripCommas(t: string): (r: string)
    ensures ',' !in r
  {
    if t == [] then ""
    else (if t[0] == ',' then "" else [t[0]]) + StripCommas(t[1..])
  }

  lemma StripCons(c: char, t: string)
    ensures StripCommas([c] + t) == (if c == ',' then "" else [c]) + StripCommas(t)
  {
    assert ([c] + t)[0] == c;
    assert ([c] + t)[1..] == t;
  }

  /** Stripping a separator choice, a character that is not a comma, and the rest. */
  lemma StripPiece(sep: string, c: char, rest: string)
    requires (sep == "" || sep == ",") && c != ','
    ensures StripCommas(sep + [c] + rest) == [c] + StripCommas(rest)
  {
    StripCons(c, rest);
    if sep == "," {
      assert sep + [c] + rest == [','] + ([c] + rest);
      StripCons(',', [c] + rest);
    } else {
      assert sep + [c] + rest == [c] + rest;
    }
  }

  lemma {:induction false} GroupFromStrip(s: string, i: nat)
    requires i <= |s| && ',' !in s
    ensures StripCommas(GroupFrom(s, i)) == s[i..]
    decreases |s| - i
  {
    if i < |s| {
      GroupFromStrip(s, i + 1);
      assert s[i] in s;
      StripPiece(Sep(s, i), s[i], GroupFrom(s, i + 1));
      assert s[i..] == [s[i]] + s[i + 1..];
    }
  }

  /** Removing the commas gives the input back. */
  lemma InsertSeparatorsStrip(s: string)
    requires ',' !in s
    ensures StripCommas(InsertSeparators(s)) == s
  {
    GroupFromStrip(s, 0);
  }

  lemma {:induction false} GroupFromNoSeparator(s: string, i: nat)
    requires i <= |s| && forall k :: i <= k < |s| ==> !SeparatorAt(s, k)
    ensures GroupFrom(s, i) == s[i..]
    decreases |s| - i
  {
    if i < |s| {
      GroupFromNoSeparator(s, i + 1);
      assert s[i..] == [s[i]] + s[i + 1..];
    }
  }

  /** A text of at most 3 characters is returned unchanged. */
  lemma InsertSeparatorsShort(s: string)
    requires |s| <= 3
    ensures InsertSeparators(s) == s
  {
    GroupFromNoSeparator(s, 0);
  }

  lemma {:induction false} GroupFromKeepsDots(s: string, i: nat)
    requires i <= |s|
    ensures '.' in GroupFrom(s, i) <==> '.' in s[i..]
    decreases |s| - i
  {
    if i < |s| {
      GroupFromKeepsDots(s, i + 1);
      assert s[i..] == [s[i]] + s[i + 1..];
    }
  }

  /** Inserting separators never adds a `.`. */
  lemma InsertSeparatorsNoDot(s: string)
    requires '.' !in s
    ensures '.' !in InsertSeparators(s)
  {
    GroupFromKeepsDots(s, 0);
  }

  /**
   * Digit grouping by an independent definition: at most 3 digits stay as
   * they are, and a longer digit string is the grouping of all but its last
   * 3 digits, a comma, and those 3 digits.
   */
  function Chunked(s: string): string
  {
    if |s| <= 3 then s else Chunked(s[..|s| - 3]) + "," + s[|s| - 3..]
  }

  lemma DigitRunAll(s: string, i: nat)
    requires AllDigits(s) && i <= |s|
    ensures DigitRun(s, i) == |s| - i
    decreases |s| - i
  {
  }

  /** In a digit string a comma goes before index `i` exactly when `0 < i` and a multiple of 3 digits follow. */
  lemma SeparatorInDigits(s: string, i: nat)
    requires AllDigits(s) && i < |s|
    ensures SeparatorAt(s, i) <==> 0 < i && (|s| - i) % 3 == 0
  {
    DigitRunAll(s, i);
    if 0 < i {
      assert IsDigit(s[i - 1]);
    }
  }

  /** The last three digits of a digit string longer than 3 are a comma and those digits. */
  lemma GroupFromLastThree(s: string)
    requires AllDigits(s) && |s| > 3
    ensures GroupFrom(s, |s| - 3) == "," + s[|s| - 3..]
  {
    var n := |s|;
    SeparatorInDigits(s, n - 3);
    forall k | n - 2 <= k < n ensures !SeparatorAt(s, k) {
      SeparatorInDigits(s, k);
    }
    GroupFromNoSeparator(s, n - 2);
    assert s[n - 3..] == [s[n - 3]] + s[n - 2..];
  }

  /** Dropping the last three digits does not move a comma before index `i`. */
  lemma SeparatorOfHead(s: string, i: nat)
    requires AllDigits(s) && |s| > 3 && i < |s| - 3
    ensures AllDigits(s[..|s| - 3])
    ensures SeparatorAt(s, i) == SeparatorAt(s[..|s| - 3], i)
  {
    var head := s[..|s| - 3];
    assert AllDigits(head);
    SeparatorInDigits(s, i);
    SeparatorInDigits(head, i);
    assert |s| - i == (|head| - i) + 3;
  }

  /** One step of `GroupFromSplit`: equal separators and characters at `i` extend the split from `i + 1` to `i`. */
  lemma GroupFromSplitStep(s: string, head: string, tail: string, i: nat)
    requires i < |head| && i < |s| && s[i] == head[i] && Sep(s, i) == Sep(head, i)
    requires GroupFrom(s, i + 1) == GroupFrom(head, i + 1) + "," + tail
    ensures GroupFrom(s, i) == GroupFrom(head, i) + "," + tail
  {
    var front := Sep(s, i) + [s[i]];
    var gh := GroupFrom(head, i + 1);
    assert GroupFrom(s, i) == front + (gh + "," + tail);
    assert GroupFrom(head, i) == front + gh;
    assert front + (gh + "," + tail) == (front + gh) + "," + tail;
  }

  lemma {:induction false} GroupFromSplit(s: string, i: nat)
    requires AllDigits(s) && |s| > 3 && i <= |s| - 3
    ensures GroupFrom(s, i) == GroupFrom(s[..|s| - 3], i) + "," + s[|s| - 3..]
    decreases |s| - i
  {
    var head := s[..|s| - 3];
    if i == |s| - 3 {
      GroupFromLastThree(s);
      assert GroupFrom(head, i) == "";
    } else {
      GroupFromSplit(s, i + 1);
      SeparatorOfHead(s, i);
      GroupFromSplitStep(s, head, s[|s| - 3..], i);
    }
  }

  lemma {:induction false} InsertSeparatorsChunked(s: string)
    requires AllDigits(s)
    ensures InsertSeparators(s) == Chunked(s)
    decreases |s|
  {
    if |s| <= 3 {
      InsertSeparatorsShort(s);
    } else {
      GroupFromSplit(s, 0);
      InsertSeparatorsChunked(s[..|s| - 3]);
    }
  }

  /**
   * Well-formed digit groups: a first group of 1 to 3 digits, then groups
   * of exactly 3 digits each preceded by a comma; no comma at either end.
   */
  predicate WellGrouped(t: string)
  {
    if |t| <= 3 then 1 <= |t| && AllDigits(t)
    else t[|t| - 4] == ',' && AllDigits(t[|t| - 3..]) && WellGrouped(t[..|t| - 4])
  }

  /** A non-empty digit string is grouped into well-formed groups. */
  lemma {:induction false} InsertSeparatorsGroups(s: string)
    requires AllDigits(s) && s != []
    ensures WellGrouped(InsertSeparators(s))
    decreases |s|
  {
    InsertSeparatorsChunked(s);
    if |s| > 3 {
      var head := s[..|s| - 3];
      InsertSeparatorsGroups(head);
      InsertSeparatorsChunked(head);
      var t := Chunked(s);
      assert t == Chunked(head) + "," + s[|s| - 3..];
      assert t[..|t| - 4] == Chunked(head);
      assert t[|t| - 3..] == s[|s| - 3..];
    }
  }

  // ---------------------------------------------------------------------
  // numberWithThousandSeparator

  /** `x.split('.')[0]`: the text before the first `.`. */
  function BeforeDot(x: string): (r: string)
    ensures '.' !in r
    ensures |r| <= |x| && r == x[..|r|]
    ensures |r| < |x| ==> x[|r|] == '.'
  {
    if x == [] || x[0] == '.' then "" else [x[0]] + BeforeDot(x[1..])
  }

  /** `x.split('.')[1]`: the text between the first and the second `.`, absent without a `.`. */
  function SecondField(x: string): (r: Option<string>)
    ensures r.None? <==> '.' !in x
    ensures r.Some? ==> '.' !in r.value
    ensures r.Some? ==> |BeforeDot(x)| + 1 + |r.value| <= |x|
    ensures r.Some? ==> r.value == x[|BeforeDot(x)| + 1..|BeforeDot(x)| + 1 + |r.value|]
    ensures r.Some? && |BeforeDot(x)| + 1 + |r.value| < |x| ==> x[|BeforeDot(x)| + 1 + |r.value|] == '.'
  {
    var head := BeforeDot(x);
    if |head| == |x| then None else Some(BeforeDot(x[|head| + 1..]))
  }

  /**
   * `numberWithThousandSeparator`: the grouped integer part, followed by
   * `.` and the second field when that field is non-empty (an empty string
   * is falsy).
   */
  function NumberWithThousandSeparator(x: string): (r: string)
    ensures |r| >= |InsertSeparators(BeforeDot(x))|
    ensures r[..|InsertSeparators(BeforeDot(x))|] == InsertSeparators(BeforeDot(x))
    ensures |r| > |InsertSeparators(BeforeDot(x))| ==> r[|InsertSeparators(BeforeDot(x))|] == '.'
  {
    var formatted := InsertSeparators(BeforeDot(x));
    match SecondField(x)
    case Some(d) => if d != "" then formatted + "." + d else formatted
    case None => formatted
  }

  lemma BeforeDotOf(i: string, rest: string)
    requires '.' !in i
    ensures BeforeDot(i + rest) == i + BeforeDot(rest)
    decreases |i|
  {
    if i != [] {
      assert (i + rest)[1..] == i[1..] + rest;
      assert i[0] in i;
      BeforeDotOf(i[1..], rest);
    } else {
      assert i + rest == rest;
    }
  }

  /**
   * With an integer part `i` and a non-empty fraction `f`, the result is the
   * grouped `i`, one `.`, and `f` verbatim; whatever follows a second `.` is
   * dropped.
   */
  lemma FractionKept(i: string, f: string, rest: string)
    requires '.' !in i && '.' !in f && f != ""
    requires rest == "" || rest[0] == '.'
    ensures NumberWithThousandSeparator(i + "." + f + rest) == InsertSeparators(i) + "." + f
  {
    var afterDot := f + rest;
    var x := i + ("." + afterDot);
    assert i + "." + f + rest == x;
    assert BeforeDot("." + afterDot) == "";
    BeforeDotOf(i, "." + afterDot);
    assert BeforeDot(x) == i;
    assert x[|i| + 1..] == afterDot;
    assert BeforeDot(rest) == "";
    BeforeDotOf(f, rest);
    assert SecondField(x) == Some(f);
  }

  /** Without a `.`, the result is the grouped input and holds no `.`. */
  lemma NoDotNoFraction(x: string)
    requires '.' !in x
    ensures NumberWithThousandSeparator(x) == InsertSeparators(x)
    ensures '.' !in NumberWithThousandSeparator(x)
  {
    BeforeDotOf(x, "");
    assert x + "" == x;
    InsertSeparatorsNoDot(x);
  }

  /** With an empty fraction (`"1234."`, `"1234..5"`), the `.` is dropped too. */
  lemma EmptyFractionDropped(i: string, rest: string)
    requires '.' !in i
    requires rest == "" || rest[0] == '.'
    ensures NumberWithThousandSeparator(i + "." + rest) == InsertSeparators(i)
    ensures '.' !in NumberWithThousandSeparator(i + "." + rest)
  {
    BeforeDotOf(i, "." + rest);
    assert i + "." + rest == i + ("." + rest);
    InsertSeparatorsNoDot(i);
  }
}
