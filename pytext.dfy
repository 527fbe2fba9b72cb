/** The pieces of Python's text built-ins that the airstrip core relies on:
    `str.split(sep)`, `str.join`, `str.strip()` and `str.strip(chars)`,
    `str.capitalize()`, `str.lower()`, `re.split` on runs of non-word
    characters, and `float()` / `int()` applied to text.  Character classes
    are ASCII (see README); numbers are exact reals. */
module PyText {

  datatype Option<T> = None | Some(value: T)

  /** The exceptions the core can raise. */
  datatype PyError = IndexError | ValueError | NameError | KeyError | AttributeError

  // ---------------------------------------------------------------- characters

  predicate IsDigit(c: char) { '0' <= c <= '9' }

  predicate AllDigits(t: string)
    decreases |t|
  {
    t == [] || (IsDigit(t[0]) && AllDigits(t[1..]))
  }

  /** `\w`: letters, digits and the underscore. */
  predicate IsWordChar(c: char) { IsDigit(c) || 'a' <= c <= 'z' || 'A' <= c <= 'Z' || c == '_' }

  predicate AllWord(t: string)
    decreases |t|
  {
    t == [] || (IsWordChar(t[0]) && AllWord(t[1..]))
  }

  /** The characters `str.isspace()` accepts, which `str.strip()`, `float()`
      and `int()` remove from both ends. */
  predicate IsSpace(c: char) {
    var n := c as int;
    n == 32 || 9 <= n <= 13 || 28 <= n <= 31 || n == 0x85 || n == 0xA0 || n == 0x1680
    || 0x2000 <= n <= 0x200A || n == 0x2028 || n == 0x2029 || n == 0x202F || n == 0x205F || n == 0x3000
  }

  /** No occurrence of `c` in `t`. */
  predicate Free(t: string, c: char) { forall i :: 0 <= i < |t| ==> t[i] != c }

  lemma {:induction false} DigitsWord(t: string)
    requires AllDigits(t)
    ensures AllWord(t)
    decreases |t|
  {
    if t != [] { DigitsWord(t[1..]); }
  }

  /** A digit string holds no character other than a digit. */
  lemma {:induction false} DigitsFree(t: string, c: char)
    requires AllDigits(t) && !IsDigit(c)
    ensures Free(t, c)
    decreases |t|
  {
    if t != [] {
      DigitsFree(t[1..], c);
      assert forall i :: 1 <= i < |t| ==> t[i] == t[1..][i - 1];
    }
  }

  lemma {:induction false} DigitsDrop(t: string, k: nat)
    requires AllDigits(t) && k <= |t|
    ensures AllDigits(t[k..])
    decreases k
  {
    if k > 0 {
      DigitsDrop(t[1..], k - 1);
      assert t[1..][k - 1..] == t[k..];
    }
  }

  lemma {:induction false} DigitsTake(t: string, k: nat)
    requires AllDigits(t) && k <= |t|
    ensures AllDigits(t[..k])
    decreases k
  {
    if k > 0 {
      DigitsTake(t[1..], k - 1);
      assert t[..k][1..] == t[1..][..k - 1];
    }
  }

  /** Value of one decimal digit (0 for any other character). */
  function DigitOf(c: char): nat
  {
    if IsDigit(c) then c as int - '0' as int else 0
  }

  /** Value of a string of decimal digits (empty string: 0). */
  function DigitsValue(t: string): nat
  {
    if t == [] then 0 else 10 * DigitsValue(t[..|t| - 1]) + DigitOf(t[|t| - 1])
  }

  // ---------------------------------------------------------------- split / join

  /** `s.split(sep)` for a non-empty separator: the pieces between the
      non-overlapping occurrences of `sep`, found from the left. */
  function Split(s: string, sep: string): (parts: seq<string>)
    requires sep != []
    ensures |parts| >= 1
    decreases |s|
  {
    if |s| < |sep| then [s]
    else if s[..|sep|] == sep then [[]] + Split(s[|sep|..], sep)
    else
      var rest := Split(s[1..], sep);
      [[s[0]] + rest[0]] + rest[1..]
  }

  /** `sep.join(parts)`. */
  function Join(parts: seq<string>, sep: string): string
  {
    if |parts| == 0 then []
    else if |parts| == 1 then parts[0]
    else parts[0] + sep + Join(parts[1..], sep)
  }

  lemma {:induction false} SplitFree(s: string, sep: string)
    requires sep != [] && Free(s, sep[0])
    ensures Split(s, sep) == [s]
    decreases |s|
  {
    if |s| >= |sep| {
      assert s[..|sep|][0] != sep[0];
      SplitFree(s[1..], sep);
      assert [s[0]] + s[1..] == s;
    }
  }

  lemma {:induction false} SplitPrefix(a: string, sep: string, b: string)
    requires sep != [] && Free(a, sep[0])
    ensures Split(a + sep + b, sep) == [a] + Split(b, sep)
    decreases |a|
  {
    var s := a + sep + b;
    if a == [] {
      assert s == sep + b && s[..|sep|] == sep && s[|sep|..] == b;
    } else {
      assert s[..|sep|][0] == a[0] != sep[0];
      assert s[1..] == a[1..] + sep + b;
      SplitPrefix(a[1..], sep, b);
      assert [a[0]] + a[1..] == a;
    }
  }

  /** Prepending a character to the first piece prepends it to the join. */
  lemma JoinExtendHead(c: char, rest: seq<string>, sep: string)
    requires |rest| >= 1
    ensures Join([[c] + rest[0]] + rest[1..], sep) == [c] + Join(rest, sep)
  {
    var parts := [[c] + rest[0]] + rest[1..];
    if |rest| >= 2 {
      assert parts[1..] == rest[1..];
      assert Join(parts, sep) == ([c] + rest[0]) + sep + Join(rest[1..], sep);
    }
  }

  lemma {:induction false} JoinSplit(s: string, sep: string)
    requires sep != []
    ensures Join(Split(s, sep), sep) == s
    decreases |s|
  {
    if |s| < |sep| {
    } else if s[..|sep|] == sep {
      JoinSplit(s[|sep|..], sep);
      assert [[]] + Split(s[|sep|..], sep) == [[]] + Split(s[|sep|..], sep);
      assert s == sep + s[|sep|..];
    } else {
      JoinSplit(s[1..], sep);
      JoinExtendHead(s[0], Split(s[1..], sep), sep);
      assert [s[0]] + s[1..] == s;
    }
  }

  lemma {:induction false} SplitJoin(parts: seq<string>, sep: string)
    requires sep != [] && |parts| >= 1
    requires forall i :: 0 <= i < |parts| ==> Free(parts[i], sep[0])
    ensures Split(Join(parts, sep), sep) == parts
    decreases |parts|
  {
    if |parts| == 1 {
      SplitFree(parts[0], sep);
    } else {
      SplitJoin(parts[1..], sep);
      SplitPrefix(parts[0], sep, Join(parts[1..], sep));
      assert [parts[0]] + parts[1..] == parts;
    }
  }

  /** Every piece of a split on a one-character separator is free of it. */
  lemma {:induction false} SplitPiecesFree(s: string, c: char)
    ensures forall i :: 0 <= i < |Split(s, [c])| ==> Free(Split(s, [c])[i], c)
    decreases |s|
  {
    if |s| >= 1 {
      SplitPiecesFree(s[1..], c);
      if s[..1] != [c] {
        assert s[0] != c;
      }
    }
  }

  /** A character absent from the text is absent from every piece of a split. */
  lemma {:induction false} SplitKeepsFree(s: string, sep: string, c: char)
    requires sep != [] && Free(s, c)
    ensures forall i :: 0 <= i < |Split(s, sep)| ==> Free(Split(s, sep)[i], c)
    decreases |s|
  {
    if |s| >= |sep| {
      if s[..|sep|] == sep {
        SplitKeepsFree(s[|sep|..], sep, c);
      } else {
        SplitKeepsFree(s[1..], sep, c);
      }
    }
  }

  lemma FreeConcat(a: string, b: string, c: char)
    requires Free(a, c) && Free(b, c)
    ensures Free(a + b, c)
  {
    forall i | 0 <= i < |a + b| ensures (a + b)[i] != c {
      if i >= |a| { assert (a + b)[i] == b[i - |a|]; }
    }
  }

  lemma {:induction false} JoinFree(parts: seq<string>, sep: string, c: char)
    requires Free(sep, c)
    requires forall i :: 0 <= i < |parts| ==> Free(parts[i], c)
    ensures Free(Join(parts, sep), c)
    decreases |parts|
  {
    if |parts| >= 2 {
      JoinFree(parts[1..], sep, c);
      FreeConcat(parts[0], sep, c);
      FreeConcat(parts[0] + sep, Join(parts[1..], sep), c);
    }
  }

  /** A character absent from every piece and from the separator is absent
      from the whole text. */
  lemma SplitFreeBack(s: string, sep: string, c: char)
    requires sep != [] && Free(sep, c)
    requires forall i :: 0 <= i < |Split(s, sep)| ==> Free(Split(s, sep)[i], c)
    ensures Free(s, c)
  {
    JoinSplit(s, sep);
    JoinFree(Split(s, sep), sep, c);
  }

  /** If a split has two pieces or more, the separator's first character occurs. */
  lemma SplitManyHasSep(s: string, sep: string)
    requires sep != [] && |Split(s, sep)| >= 2
    ensures !Free(s, sep[0])
  {
    if Free(s, sep[0]) { SplitFree(s, sep); }
  }

  /** The first piece of a split starts with the string's first character,
      unless that character starts the separator. */
  lemma SplitHead(s: string, sep: string)
    requires sep != [] && |s| > 0 && s[0] != sep[0]
    ensures |Split(s, sep)[0]| > 0 && Split(s, sep)[0][0] == s[0]
  {
    if |s| >= |sep| { assert s[..|sep|][0] != sep[0]; }
  }

  /** A split into one piece left the text whole. */
  lemma SplitOne(s: string, sep: string)
    requires sep != [] && |Split(s, sep)| == 1
    ensures Split(s, sep)[0] == s
  {
    JoinSplit(s, sep);
  }

  /** A split into two pieces cut the text at one separator. */
  lemma SplitTwo(s: string, sep: string)
    requires sep != [] && |Split(s, sep)| == 2
    ensures s == Split(s, sep)[0] + sep + Split(s, sep)[1]
  {
    JoinSplit(s, sep);
  }

  // ---------------------------------------------------------------- re.split

  /** Drops the leading run of non-word characters. */
  function SkipNonWord(s: string): (r: string)
    ensures |r| <= |s|
    ensures r == [] || IsWordChar(r[0])
    ensures s != [] && !IsWordChar(s[0]) ==> |r| < |s|
  {
    if s == [] || IsWordChar(s[0]) then s else SkipNonWord(s[1..])
  }

  /** `re.split('[^\d\w]+', s)`: the pieces between maximal runs of
      non-word characters (a leading or trailing run yields an empty piece). */
  function ReSplitNonWord(s: string): (parts: seq<string>)
    ensures |parts| >= 1
    decreases |s|
  {
    if s == [] then [[]]
    else if IsWordChar(s[0]) then
      var rest := ReSplitNonWord(s[1..]);
      [[s[0]] + rest[0]] + rest[1..]
    else [[]] + ReSplitNonWord(SkipNonWord(s))
  }

  lemma {:induction false} ReSplitWord(a: string)
    requires AllWord(a)
    ensures ReSplitNonWord(a) == [a]
    decreases |a|
  {
    if a != [] {
      ReSplitWord(a[1..]);
      assert [a[0]] + a[1..] == a;
    }
  }

  /** One separator character between a word run and the rest. */
  lemma {:induction false} ReSplitStep(a: string, c: char, b: string)
    requires AllWord(a) && !IsWordChar(c) && b != [] && IsWordChar(b[0])
    ensures ReSplitNonWord(a + [c] + b) == [a] + ReSplitNonWord(b)
    decreases |a|
  {
    var s := a + [c] + b;
    if a == [] {
      assert s == [c] + b && s[1..] == b;
      assert SkipNonWord(s) == SkipNonWord(b) == b;
    } else {
      assert s[1..] == a[1..] + [c] + b;
      ReSplitStep(a[1..], c, b);
      assert [a[0]] + a[1..] == a;
    }
  }

  /** A text cut in two by a non-word separator `c`, with a word run before
      it and a word character after it, splits as the run and then the rest. */
  lemma ReSplitAt(s: string, c: char)
    requires |Split(s, [c])| == 2 && !IsWordChar(c)
    requires AllWord(Split(s, [c])[0])
    requires Split(s, [c])[1] != [] && IsWordChar(Split(s, [c])[1][0])
    ensures ReSplitNonWord(s) == [Split(s, [c])[0]] + ReSplitNonWord(Split(s, [c])[1])
  {
    SplitTwo(s, [c]);
    ReSplitStep(Split(s, [c])[0], c, Split(s, [c])[1]);
  }


  // ---------------------------------------------------------------- strip

  /** What a strip removes: white space (`s.strip()`) or the characters
      given to `s.strip(chars)`. */
  datatype StripSet = Spaces | Chars(chars: set<char>)

  predicate Drops(k: StripSet, c: char) {
    match k
    case Spaces => IsSpace(c)
    case Chars(cs) => c in cs
  }

  function TrimStart(s: string, drop: StripSet): (r: string)
    ensures |r| <= |s|
    ensures r == [] || !Drops(drop, r[0])
  {
    if s != [] && Drops(drop, s[0]) then TrimStart(s[1..], drop) else s
  }

  function TrimEnd(s: string, drop: StripSet): (r: string)
    ensures |r| <= |s|
    ensures r == [] || !Drops(drop, r[|r| - 1])
  {
    if s != [] && Drops(drop, s[|s| - 1]) then TrimEnd(s[..|s| - 1], drop) else s
  }

  /** `s.strip()` or `s.strip(chars)`. */
  function StripBy(s: string, drop: StripSet): string
  {
    TrimEnd(TrimStart(s, drop), drop)
  }

  /** `s.strip()`. */
  function Strip(s: string): string
  {
    StripBy(s, Spaces)
  }

  lemma {:induction false} TrimEndDropsSuffix(x: string, y: string, drop: StripSet)
    requires x != [] && !Drops(drop, x[|x| - 1])
    requires forall i :: 0 <= i < |y| ==> Drops(drop, y[i])
    ensures TrimEnd(x + y, drop) == x
    decreases |y|
  {
    if y == [] {
      assert x + y == x;
    } else {
      var s := x + y;
      assert s[|s| - 1] == y[|y| - 1];
      assert s[..|s| - 1] == x + y[..|y| - 1];
      TrimEndDropsSuffix(x, y[..|y| - 1], drop);
    }
  }

  /** Stripping removes exactly a trailing run of dropped characters. */
  lemma StripDropsSuffix(x: string, y: string, drop: StripSet)
    requires x != [] && !Drops(drop, x[0]) && !Drops(drop, x[|x| - 1])
    requires forall i :: 0 <= i < |y| ==> Drops(drop, y[i])
    ensures StripBy(x + y, drop) == x
  {
    assert (x + y)[0] == x[0];
    assert TrimStart(x + y, drop) == x + y;
    TrimEndDropsSuffix(x, y, drop);
  }

  // ---------------------------------------------------------------- case

  function Upper(c: char): char { if 'a' <= c <= 'z' then (c as int - 32) as char else c }

  function Lower(c: char): char { if 'A' <= c <= 'Z' then (c as int + 32) as char else c }

  /** `s.lower()`. */
  function LowerAll(s: string): (r: string)
    ensures |r| == |s| && forall i :: 0 <= i < |s| ==> r[i] == Lower(s[i])
  {
    if s == [] then [] else [Lower(s[0])] + LowerAll(s[1..])
  }

  /** `s.capitalize()`: first character upper case, the others lower case. */
  function Capitalize(s: string): (r: string)
    ensures |r| == |s|
    ensures forall i :: 0 <= i < |s| ==> r[i] == if i == 0 then Upper(s[0]) else Lower(s[i])
  {
    if s == [] then [] else [Upper(s[0])] + LowerAll(s[1..])
  }
}
