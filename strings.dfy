/** The few `java.lang.String` and Apache commons-io operations the loaders rely on:
    case mapping, `contains`, `equalsIgnoreCase`, `compareTo` and
    `FilenameUtils.getExtension`. */
module Strings {

  /** `Character.toUpperCase` on the letters the model knows: ASCII, the Latin-1
      letters (y with diaeresis and the micro sign map outside Latin-1), the long s and
      the dotless i. */
  function UpperChar(c: char): char
  {
    if 'a' <= c <= 'z' || ('\U{E0}' <= c <= '\U{FE}' && c != '\U{F7}') then (c as int - 32) as char
    else if c == '\U{FF}' then '\U{178}'
    else if c == '\U{B5}' then '\U{39C}'
    else if c == '\U{17F}' then 'S'
    else if c == '\U{131}' then 'I'
    else c
  }

  /** `Character.toLowerCase` on ASCII and Latin-1 letters. */
  function LowerChar(c: char): char
  {
    if 'A' <= c <= 'Z' || ('\U{C0}' <= c <= '\U{DE}' && c != '\U{D7}') then (c as int + 32) as char
    else c
  }

  /** `String.toUpperCase`, character by character (no expansions such as sharp s to "SS"). */
  function ToUpper(s: string): string
  {
    seq(|s|, i requires 0 <= i < |s| => UpperChar(s[i]))
  }

  /** `String.toLowerCase`, character by character. */
  function ToLower(s: string): string
  {
    seq(|s|, i requires 0 <= i < |s| => LowerChar(s[i]))
  }

  lemma UpperCharIdempotent(c: char)
    ensures UpperChar(UpperChar(c)) == UpperChar(c)
  {
  }

  /** Upper-casing twice is upper-casing once. */
  lemma ToUpperIdempotent(s: string)
    ensures ToUpper(ToUpper(s)) == ToUpper(s)
  {
    forall i | 0 <= i < |s| ensures ToUpper(ToUpper(s))[i] == ToUpper(s)[i] {
      UpperCharIdempotent(s[i]);
    }
  }

  /** `sub` occurs in `s` starting at position `i`. */
  predicate OccursAt(s: string, sub: string, i: int)
  {
    0 <= i <= |s| - |sub| && s[i..i + |sub|] == sub
  }

  /** `s.contains(sub)`: `sub` starts at the first position, or occurs in the rest. */
  predicate Contains(s: string, sub: string)
    decreases |s|
  {
    if |s| < |sub| then false
    else s[..|sub|] == sub || (s != [] && Contains(s[1..], sub))
  }

  /** An occurrence anywhere is found. */
  lemma {:induction false} OccursAtContains(s: string, sub: string, i: int)
    requires OccursAt(s, sub, i)
    ensures Contains(s, sub)
    decreases i
  {
    if i > 0 {
      assert s[1..][i - 1..i - 1 + |sub|] == s[i..i + |sub|];
      OccursAtContains(s[1..], sub, i - 1);
    }
  }

  /** What is found occurs somewhere. */
  lemma {:induction false} ContainsOccursAt(s: string, sub: string)
    requires Contains(s, sub)
    ensures exists i :: OccursAt(s, sub, i)
    decreases |s|
  {
    if s[..|sub|] == sub {
      assert OccursAt(s, sub, 0);
    } else {
      ContainsOccursAt(s[1..], sub);
      var i :| OccursAt(s[1..], sub, i);
      assert s[1..][i..i + |sub|] == s[i + 1..i + 1 + |sub|];
      assert OccursAt(s, sub, i + 1);
    }
  }

  /** `Character`-wise comparison of `String.equalsIgnoreCase`. */
  predicate CharEqualsIgnoreCase(c: char, d: char)
  {
    c == d || UpperChar(c) == UpperChar(d) || LowerChar(UpperChar(c)) == LowerChar(UpperChar(d))
  }

  /** `a.equalsIgnoreCase(b)`. */
  predicate EqualsIgnoreCase(a: string, b: string)
  {
    |a| == |b| && forall i | 0 <= i < |a| :: CharEqualsIgnoreCase(a[i], b[i])
  }

  /** `a.compareTo(b) < 0`: lexicographic order on characters, a proper prefix first. */
  predicate LexLess(a: string, b: string)
    decreases |a|
  {
    if a == [] then b != []
    else if b == [] then false
    else if a[0] != b[0] then a[0] < b[0]
    else LexLess(a[1..], b[1..])
  }

  lemma {:induction false} LexLessIrreflexive(a: string)
    ensures !LexLess(a, a)
    decreases |a|
  {
    if a != [] {
      LexLessIrreflexive(a[1..]);
    }
  }

  lemma {:induction false} LexLessTransitive(a: string, b: string, c: string)
    requires LexLess(a, b) && LexLess(b, c)
    ensures LexLess(a, c)
    decreases |a|
  {
    if a != [] && b != [] && c != [] && a[0] == b[0] == c[0] {
      LexLessTransitive(a[1..], b[1..], c[1..]);
    }
  }

  /** Distinct strings are always ordered one way or the other. */
  lemma {:induction false} LexLessTotal(a: string, b: string)
    ensures a == b || LexLess(a, b) || LexLess(b, a)
    decreases |a|
  {
    if a != [] && b != [] && a[0] == b[0] {
      LexLessTotal(a[1..], b[1..]);
      if a[1..] == b[1..] {
        assert a == [a[0]] + a[1..] && b == [b[0]] + b[1..];
      }
    }
  }

  lemma {:induction false} LexLessAsymmetric(a: string, b: string)
    requires LexLess(a, b)
    ensures !LexLess(b, a)
    decreases |a|
  {
    if a != [] && b != [] && a[0] == b[0] {
      LexLessAsymmetric(a[1..], b[1..]);
    }
  }

  /** `s.lastIndexOf(c)`: the last position holding `c`, or -1. */
  function LastIndexOf(s: string, c: char): (k: int)
    ensures -1 <= k < |s|
    ensures k >= 0 ==> s[k] == c
    ensures forall j | k < j < |s| :: s[j] != c
  {
    if s == [] then -1
    else if s[|s| - 1] == c then |s| - 1
    else LastIndexOf(s[..|s| - 1], c)
  }

  predicate IsSeparator(c: char)
  {
    c == '/' || c == '\\'
  }

  /** `FilenameUtils.indexOfExtension`: the last dot, unless a path separator follows it. */
  function ExtensionIndex(path: string): int
  {
    var dot := LastIndexOf(path, '.');
    var unix := LastIndexOf(path, '/');
    var windows := LastIndexOf(path, '\\');
    if unix > dot || windows > dot then -1 else dot
  }

  /** The file name has a dot that no path separator follows. */
  predicate HasExtensionDot(path: string)
  {
    exists k | 0 <= k < |path| :: path[k] == '.' && forall j | k < j < |path| :: !IsSeparator(path[j])
  }

  /** `FilenameUtils.getExtension`: the text after the last dot of the file name,
      or "" when the file name has no dot. */
  function GetExtension(path: string): (ext: string)
    ensures |ext| < |path| || ext == ""
    ensures ext == path[|path| - |ext|..]
    ensures forall j | 0 <= j < |ext| :: ext[j] != '.' && !IsSeparator(ext[j])
  {
    var i := ExtensionIndex(path);
    if i == -1 then "" else path[i + 1..]
  }

  /** The extension is preceded by a dot exactly when the file name has one, and is
      empty otherwise. */
  lemma GetExtensionMeaning(path: string)
    ensures var ext := GetExtension(path);
      HasExtensionDot(path) <==> |ext| < |path| && path[|path| - |ext| - 1] == '.'
    ensures !HasExtensionDot(path) ==> GetExtension(path) == ""
  {
    var i := ExtensionIndex(path);
    if i == -1 {
      assert !HasExtensionDot(path) by {
        forall k | 0 <= k < |path| && path[k] == '.'
          ensures exists j | k < j < |path| :: IsSeparator(path[j])
        {
          var unix := LastIndexOf(path, '/');
          var windows := LastIndexOf(path, '\\');
          if unix > LastIndexOf(path, '.') { assert IsSeparator(path[unix]); }
          else { assert IsSeparator(path[windows]); }
        }
      }
    } else {
      assert path[i] == '.';
      assert forall j | i < j < |path| :: !IsSeparator(path[j]);
    }
  }

  /** The extension of `base.ext` is `ext` when `ext` holds no dot and no separator. */
  lemma ExtensionAfterLastDot(base: string, ext: string)
    requires forall j | 0 <= j < |ext| :: ext[j] != '.' && !IsSeparator(ext[j])
    ensures GetExtension(base + "." + ext) == ext
  {
    var path := base + "." + ext;
    var dot := |base|;
    assert path[dot] == '.';
    assert forall j | dot < j < |path| :: path[j] == ext[j - dot - 1];
    assert HasExtensionDot(path) by {
      assert forall j | dot < j < |path| :: !IsSeparator(path[j]);
    }
    var e := GetExtension(path);
    assert e == path[|path| - |e|..];
    assert path[|path| - |ext|..] == ext;
  }
}
