/** The pieces of Python's string and path handling that the parsers rely on:
    `str.split` on one character, `str.upper`/`str.lower` on ASCII letters,
    `int()` on a short string, and the `name`/`stem` of a POSIX `PurePath`. */
module Text {
  import opened Results

  // ---------------------------------------------------------------------
  // str.split(sep) and sep.join(parts)

  /** `s.split(sep)`: the maximal runs between separators, empty runs included. */
  function Split(s: string, sep: char): (parts: seq<string>)
    ensures |parts| >= 1
    ensures forall i :: 0 <= i < |parts| ==> sep !in parts[i]
    decreases |s|
  {
    if s == [] then [""]
    else if s[0] == sep then [""] + Split(s[1..], sep)
    else
      var rest := Split(s[1..], sep);
      [[s[0]] + rest[0]] + rest[1..]
  }

  /** `sep.join(parts)`. */
  function Join(parts: seq<string>, sep: char): string
    decreases |parts|
  {
    if |parts| == 0 then ""
    else if |parts| == 1 then parts[0]
    else parts[0] + [sep] + Join(parts[1..], sep)
  }

  /** Joining the pieces of a split gives the original string back. */
  lemma {:induction false} JoinSplit(s: string, sep: char)
    ensures Join(Split(s, sep), sep) == s
    decreases |s|
  {
    if s == [] {
    } else if s[0] == sep {
      JoinSplit(s[1..], sep);
      assert Split(s, sep) == [""] + Split(s[1..], sep);
      assert ([""] + Split(s[1..], sep))[1..] == Split(s[1..], sep);
    } else {
      var rest := Split(s[1..], sep);
      JoinSplit(s[1..], sep);
      var parts := [[s[0]] + rest[0]] + rest[1..];
      assert parts[1..] == rest[1..];
      if |rest| == 1 {
      } else {
        assert Join(rest, sep) == rest[0] + [sep] + Join(rest[1..], sep);
        assert s == [s[0]] + s[1..];
      }
    }
  }

  /** A string without the separator splits into itself alone. */
  lemma {:induction false} SplitNoSep(s: string, sep: char)
    requires sep !in s
    ensures Split(s, sep) == [s]
    decreases |s|
  {
    if s != [] {
      assert sep !in s[1..];
      SplitNoSep(s[1..], sep);
      assert [s[0]] + s[1..] == s;
    }
  }

  /** Splitting distributes over a separator placed between two strings. */
  lemma {:induction false} SplitAppend(a: string, b: string, sep: char)
    ensures Split(a + [sep] + b, sep) == Split(a, sep) + Split(b, sep)
    decreases |a|
  {
    if a == [] {
      assert a + [sep] + b == [sep] + b;
      assert ([sep] + b)[1..] == b;
    } else {
      var s := a + [sep] + b;
      assert s[0] == a[0];
      assert s[1..] == a[1..] + [sep] + b;
      SplitAppend(a[1..], b, sep);
    }
  }

  /** Splitting a join of separator-free pieces gives the pieces back. */
  lemma {:induction false} SplitJoin(parts: seq<string>, sep: char)
    requires |parts| >= 1
    requires forall i :: 0 <= i < |parts| ==> sep !in parts[i]
    ensures Split(Join(parts, sep), sep) == parts
    decreases |parts|
  {
    if |parts| == 1 {
      SplitNoSep(parts[0], sep);
    } else {
      SplitNoSep(parts[0], sep);
      SplitJoin(parts[1..], sep);
      SplitAppend(parts[0], Join(parts[1..], sep), sep);
      assert [parts[0]] + parts[1..] == parts;
    }
  }

  /** The last piece of a split taken after a separator is the last piece of the right-hand side. */
  lemma LastSegmentAfterSep(a: string, b: string, sep: char)
    requires sep !in b
    ensures var segs := Split(a + [sep] + b, sep); segs[|segs| - 1] == b
  {
    SplitAppend(a, b, sep);
    SplitNoSep(b, sep);
  }

  // ---------------------------------------------------------------------
  // str.upper() and str.lower() on ASCII letters

  function UpperChar(c: char): char
  {
    if 'a' <= c <= 'z' then (c as int - 32) as char else c
  }

  function LowerChar(c: char): char
  {
    if 'A' <= c <= 'Z' then (c as int + 32) as char else c
  }

  function ToUpper(s: string): (r: string)
    ensures |r| == |s|
    ensures forall i :: 0 <= i < |s| ==> r[i] == UpperChar(s[i])
  {
    seq(|s|, i requires 0 <= i < |s| => UpperChar(s[i]))
  }

  function ToLower(s: string): (r: string)
    ensures |r| == |s|
    ensures forall i :: 0 <= i < |s| ==> r[i] == LowerChar(s[i])
  {
    seq(|s|, i requires 0 <= i < |s| => LowerChar(s[i]))
  }

  lemma UpperAppend(a: string, b: string)
    ensures ToUpper(a + b) == ToUpper(a) + ToUpper(b)
  {
    assert forall i :: 0 <= i < |a + b| ==> ToUpper(a + b)[i] == (ToUpper(a) + ToUpper(b))[i];
  }

  /** Upper-casing twice is upper-casing once. */
  lemma UpperIdempotent(s: string)
    ensures ToUpper(ToUpper(s)) == ToUpper(s)
  {
    assert forall i :: 0 <= i < |s| ==> ToUpper(ToUpper(s))[i] == ToUpper(s)[i];
  }

  /** Lower-casing first makes no difference to the upper-cased result. */
  lemma UpperLower(s: string)
    ensures ToUpper(ToLower(s)) == ToUpper(s)
  {
    assert forall i :: 0 <= i < |s| ==> ToUpper(ToLower(s))[i] == ToUpper(s)[i];
  }

  /** Upper-casing neither creates nor removes a character that is not a lower-case letter. */
  lemma UpperKeepsAbsent(s: string, c: char)
    requires !('a' <= c <= 'z') && !('A' <= c <= 'Z')
    ensures c in ToUpper(s) <==> c in s
  {
    if c in ToUpper(s) {
      var i :| 0 <= i < |s| && ToUpper(s)[i] == c;
      assert s[i] == c;
    }
    if c in s {
      var i :| 0 <= i < |s| && s[i] == c;
      assert ToUpper(s)[i] == c;
    }
  }

  // ---------------------------------------------------------------------
  // int() on a str, for ASCII input

  predicate IsSpace(c: char)
  {
    c == ' ' || c == '\t' || c == '\n' || c == '\r' || c == '\U{000B}' || c == '\U{000C}'
  }

  predicate IsDigit(c: char)
  {
    '0' <= c <= '9'
  }

  function StripLeft(s: string): (r: string)
    ensures |r| <= |s|
    decreases |s|
  {
    if s != [] && IsSpace(s[0]) then StripLeft(s[1..]) else s
  }

  function StripRight(s: string): (r: string)
    ensures |r| <= |s|
    decreases |s|
  {
    if s != [] && IsSpace(s[|s| - 1]) then StripRight(s[..|s| - 1]) else s
  }

  /** Leading and trailing white space removed, as `int()` does. */
  function Strip(s: string): (r: string)
    ensures |r| <= |s|
  {
    StripRight(StripLeft(s))
  }

  /** A run of decimal digits in which every `_` stands between two digits. */
  predicate DigitGroups(s: string)
  {
    |s| > 0 && IsDigit(s[0]) && DigitsAfterDigit(s[1..])
  }

  /** What may follow a digit inside `DigitGroups`. */
  predicate DigitsAfterDigit(s: string)
    decreases |s|
  {
    || s == []
    || (IsDigit(s[0]) && DigitsAfterDigit(s[1..]))
    || (|s| >= 2 && s[0] == '_' && IsDigit(s[1]) && DigitsAfterDigit(s[2..]))
  }

  predicate AllDigits(s: string)
  {
    forall i :: 0 <= i < |s| ==> IsDigit(s[i])
  }

  lemma {:induction false} AllDigitsAfterDigit(s: string)
    requires AllDigits(s)
    ensures DigitsAfterDigit(s)
    decreases |s|
  {
    if s != [] {
      assert AllDigits(s[1..]) by {
        forall i | 0 <= i < |s[1..]| ensures IsDigit(s[1..][i]) { assert s[1..][i] == s[i + 1]; }
      }
      AllDigitsAfterDigit(s[1..]);
    }
  }

  function DigitValue(c: char): nat
  {
    if IsDigit(c) then c as int - '0' as int else 0
  }

  /** The value of a digit string, skipping `_` separators. */
  function DecimalValue(s: string): nat
    decreases |s|
  {
    if s == [] then 0
    else if s[|s| - 1] == '_' then DecimalValue(s[..|s| - 1])
    else 10 * DecimalValue(s[..|s| - 1]) + DigitValue(s[|s| - 1])
  }

  /** `int(s)`: `None` where Python raises ValueError. */
  function ParseInt(s: string): (r: Option<int>)
    ensures r.Some? ==> |s| > 0 && Strip(s) != []
    // only a leading minus makes the value negative
    ensures r.Some? && r.value < 0 ==> Strip(s)[0] == '-'
  {
    var t := Strip(s);
    if |t| > 0 && (t[0] == '-' || t[0] == '+') then
      if DigitGroups(t[1..]) then
        Some(if t[0] == '-' then -(DecimalValue(t[1..]) as int) else DecimalValue(t[1..]))
      else None
    else if DigitGroups(t) then Some(DecimalValue(t))
    else None
  }

  function Pow10(n: nat): nat
  {
    if n == 0 then 1 else 10 * Pow10(n - 1)
  }

  function DigitChar(d: nat): char
    requires d < 10
  {
    ('0' as int + d) as char
  }

  /** `f"{n:0{width}d}"` for a number with at most `width` digits. */
  function ZeroPad(n: nat, width: nat): (r: string)
    requires n < Pow10(width)
    ensures |r| == width
    ensures AllDigits(r)
  {
    if width == 0 then "" else ZeroPad(n / 10, width - 1) + [DigitChar(n % 10)]
  }

  lemma {:induction false} ZeroPadValue(n: nat, width: nat)
    requires n < Pow10(width)
    ensures DecimalValue(ZeroPad(n, width)) == n
  {
    if width > 0 {
      var s := ZeroPad(n, width);
      ZeroPadValue(n / 10, width - 1);
      assert s[..|s| - 1] == ZeroPad(n / 10, width - 1);
    }
  }

  lemma StripDigits(s: string)
    requires |s| > 0 && IsDigit(s[0]) && IsDigit(s[|s| - 1])
    ensures Strip(s) == s
  {
  }

  lemma ParseIntOfDigits(s: string)
    requires DigitGroups(s) && IsDigit(s[|s| - 1])
    ensures ParseInt(s) == Some(DecimalValue(s))
  {
    StripDigits(s);
    var t := Strip(s);
    assert t == s;
    assert !(t[0] == '-' || t[0] == '+');
  }

  lemma ZeroPadGroups(n: nat, width: nat)
    requires 0 < width && n < Pow10(width)
    ensures var s := ZeroPad(n, width); DigitGroups(s) && IsDigit(s[|s| - 1])
  {
    var s := ZeroPad(n, width);
    assert AllDigits(s[1..]) by {
      forall i | 0 <= i < |s[1..]| ensures IsDigit(s[1..][i]) { assert s[1..][i] == s[i + 1]; }
    }
    AllDigitsAfterDigit(s[1..]);
  }

  /** `int()` reads back a zero-padded number. */
  lemma ParseIntZeroPad(n: nat, width: nat)
    requires 0 < width && n < Pow10(width)
    ensures ParseInt(ZeroPad(n, width)) == Some(n)
  {
    ZeroPadValue(n, width);
    ZeroPadGroups(n, width);
    ParseIntOfDigits(ZeroPad(n, width));
  }

  // ---------------------------------------------------------------------
  // PurePosixPath(p).name and .stem

  /** The path components that `PurePath` keeps: empty and `.` pieces are dropped. */
  function Components(segments: seq<string>): (r: seq<string>)
    ensures |r| <= |segments|
    ensures forall i :: 0 <= i < |r| ==> r[i] != "" && r[i] != "." && r[i] in segments
    decreases |segments|
  {
    if segments == [] then []
    else (if segments[0] == "" || segments[0] == "." then [] else [segments[0]]) + Components(segments[1..])
  }

  lemma {:induction false} ComponentsAppend(a: seq<string>, b: seq<string>)
    ensures Components(a + b) == Components(a) + Components(b)
    decreases |a|
  {
    if a != [] {
      var head := if a[0] == "" || a[0] == "." then [] else [a[0]];
      assert (a + b)[0] == a[0];
      assert (a + b)[1..] == a[1..] + b;
      ComponentsAppend(a[1..], b);
      calc {
        Components(a + b);
        head + Components(a[1..] + b);
        head + (Components(a[1..]) + Components(b));
        (head + Components(a[1..])) + Components(b);
        Components(a) + Components(b);
      }
    } else {
      assert a + b == b;
    }
  }

  /** Pieces that are neither empty nor `.` are all kept. */
  lemma {:induction false} ComponentsOfPlain(segs: seq<string>)
    requires forall i :: 0 <= i < |segs| ==> segs[i] != "" && segs[i] != "."
    ensures Components(segs) == segs
    decreases |segs|
  {
    if segs != [] {
      ComponentsOfPlain(segs[1..]);
      assert [segs[0]] + segs[1..] == segs;
    }
  }

  /** The components of a path string: none is empty or `.`, and none holds a `/`. */
  function PathComponents(p: string): (cs: seq<string>)
    ensures forall i :: 0 <= i < |cs| ==> cs[i] != "" && cs[i] != "." && '/' !in cs[i]
  {
    var segs := Split(p, '/');
    var cs := Components(segs);
    assert forall i :: 0 <= i < |cs| ==> exists k :: 0 <= k < |segs| && cs[i] == segs[k];
    cs
  }

  /** `PurePath(p).name`: the last component, or "" when there is none. */
  function PathName(p: string): (name: string)
    ensures '/' !in name && name != "."
    ensures name == [] <==> PathComponents(p) == []
  {
    var cs := PathComponents(p);
    if cs == [] then "" else cs[|cs| - 1]
  }

  /** Index of the last occurrence of `c` in `s`, or -1 (`str.rfind`). */
  function RFind(s: string, c: char): (i: int)
    ensures -1 <= i < |s|
    ensures i >= 0 ==> s[i] == c
    ensures forall j :: i < j < |s| ==> s[j] != c
    decreases |s|
  {
    if s == [] then -1
    else if s[|s| - 1] == c then |s| - 1
    else RFind(s[..|s| - 1], c)
  }

  /** `PurePath(p).stem`: the name without its final suffix, where a suffix needs a
      non-empty part before its dot and at least one character after it. */
  function Stem(p: string): string
  {
    var name := PathName(p);
    var i := RFind(name, '.');
    if 0 < i < |name| - 1 then name[..i] else name
  }

  /** What `stem` keeps of the name: a prefix, empty only for an empty name,
      that drops exactly the final suffix when there is one. */
  lemma StemOfName(p: string)
    ensures var name, stem := PathName(p), Stem(p);
            && |stem| <= |name| && stem == name[..|stem|]
            && (stem == [] <==> name == [])
            // a suffix is cut at the last dot, after a non-empty part and before a non-empty one
            && (stem != name ==> |stem| < |name| - 1 && name[|stem|] == '.' && '.' !in name[|stem| + 1..])
            // nothing is cut when the name ends in a dot or has no dot after its first character
            && (stem == name <==> (name != [] && name[|name| - 1] == '.') || forall j :: 0 < j < |name| ==> name[j] != '.')
  {
  }

  /** The name of `a/b` is the name of `b` whenever `b` has a component. */
  lemma NameAfterSlash(a: string, b: string)
    requires PathComponents(b) != []
    ensures PathName(a + "/" + b) == PathName(b)
    ensures Stem(a + "/" + b) == Stem(b)
  {
    assert a + "/" + b == a + ['/'] + b;
    SplitAppend(a, b, '/');
    ComponentsAppend(Split(a, '/'), Split(b, '/'));
  }

  /** A file name `base.ext` with no slash: its stem is `base`. */
  lemma StemOfFileName(base: string, ext: string)
    requires base != [] && ext != []
    requires '/' !in base && '/' !in ext && '.' !in ext
    ensures PathComponents(base + "." + ext) == [base + "." + ext]
    ensures Stem(base + "." + ext) == base
  {
    var f := base + "." + ext;
    assert '/' !in f by {
      assert forall i :: 0 <= i < |f| ==> f[i] != '/' by {
        forall i | 0 <= i < |f| ensures f[i] != '/' {
          if i < |base| { assert f[i] == base[i]; }
          else if i > |base| { assert f[i] == ext[i - |base| - 1]; }
        }
      }
    }
    SplitNoSep(f, '/');
    assert f != "" && f != ".";
    assert Components([f]) == [f];
    var i := RFind(f, '.');
    assert f[|base|] == '.';
    assert i == |base| by {
      forall j | |base| < j < |f| ensures f[j] != '.' {
        assert f[j] == ext[j - |base| - 1];
      }
      assert i >= |base|;
    }
    assert f[..|base|] == base;
  }
}
