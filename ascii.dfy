/**
 * The Python string built-ins the core relies on (`lower`, `upper`, `capitalize`,
 * `strip`, `in`, `endswith`, `split`, `os.path.splitext` and `int()`), restricted
 * to ASCII: characters outside ASCII are never letters, digits, word characters
 * or white space here.
 */
module Ascii {
  import opened Wrappers

  /** `str.isspace` on ASCII: space, \t \n \v \f \r and the separators \x1c to \x1f. */
  predicate IsSpace(c: char) {
    c == ' ' || (9 <= c as int <= 13) || (28 <= c as int <= 31)
  }

  predicate IsUpper(c: char) { 'A' <= c <= 'Z' }
  predicate IsLower(c: char) { 'a' <= c <= 'z' }
  predicate IsDigit(c: char) { '0' <= c <= '9' }

  /** A character matched by the regular-expression class `\w`. */
  predicate IsWordChar(c: char) { IsUpper(c) || IsLower(c) || IsDigit(c) || c == '_' }

  function Lower(c: char): (r: char)
    ensures !IsUpper(r)
    ensures IsUpper(c) ==> r as int == c as int + 32
    ensures !IsUpper(c) ==> r == c
  {
    if IsUpper(c) then (c as int + 32) as char else c
  }

  function Upper(c: char): (r: char)
    ensures !IsLower(r)
    ensures IsLower(c) ==> r as int == c as int - 32
    ensures !IsLower(c) ==> r == c
  {
    if IsLower(c) then (c as int - 32) as char else c
  }

  /** `s.lower()` */
  function LowerStr(s: string): (r: string)
    ensures |r| == |s|
    ensures forall i :: 0 <= i < |s| ==> r[i] == Lower(s[i])
  {
    seq(|s|, i requires 0 <= i < |s| => Lower(s[i]))
  }

  /** `s.upper()` */
  function UpperStr(s: string): (r: string)
    ensures |r| == |s|
    ensures forall i :: 0 <= i < |s| ==> r[i] == Upper(s[i])
  {
    seq(|s|, i requires 0 <= i < |s| => Upper(s[i]))
  }

  /** `s.capitalize()`: the first character upper-cased, the rest lower-cased. */
  function Capitalize(s: string): (r: string)
    ensures |r| == |s|
    ensures s != [] ==> r[0] == Upper(s[0]) && r[1..] == LowerStr(s[1..])
  {
    if s == [] then [] else [Upper(s[0])] + LowerStr(s[1..])
  }

  /** `s.lstrip()` */
  function StripLeft(s: string): (r: string)
    ensures |r| <= |s| && r == s[|s| - |r|..]
    ensures r == [] || !IsSpace(r[0])
    ensures forall i :: 0 <= i < |s| - |r| ==> IsSpace(s[i])
  {
    if s != [] && IsSpace(s[0]) then StripLeft(s[1..]) else s
  }

  /** `s.rstrip()` */
  function StripRight(s: string): (r: string)
    ensures |r| <= |s| && r == s[..|r|]
    ensures r == [] || !IsSpace(r[|r| - 1])
    ensures forall i :: |r| <= i < |s| ==> IsSpace(s[i])
  {
    if s != [] && IsSpace(s[|s| - 1]) then StripRight(s[..|s| - 1]) else s
  }

  /** `s.strip()` */
  function Strip(s: string): string {
    StripRight(StripLeft(s))
  }

  /** A string that is empty or white space only, so that `not s.strip()` holds. */
  predicate IsBlank(s: string) {
    forall i :: 0 <= i < |s| ==> IsSpace(s[i])
  }

  /** Stripping leaves nothing exactly when the string is blank; otherwise it keeps
      a slice of the string that starts and ends with a non-space character. */
  lemma StripEmptyIffBlank(s: string)
    ensures Strip(s) == [] <==> IsBlank(s)
    ensures Strip(s) != [] ==> !IsSpace(Strip(s)[0]) && !IsSpace(Strip(s)[|Strip(s)| - 1])
  {
    var l := StripLeft(s);
    var r := StripRight(l);
    if r != [] {
      assert r[0] == l[0];
    }
  }

  /** `sub` occurs in `s` starting at index `i`. */
  predicate OccursAt(s: string, sub: string, i: int) {
    0 <= i <= |s| - |sub| && s[i..i + |sub|] == sub
  }

  /** `sub in s`: tries each start position from the left. */
  predicate Contains(s: string, sub: string)
    decreases |s|
  {
    |sub| <= |s| && (s[..|sub|] == sub || (s != [] && Contains(s[1..], sub)))
  }

  /** The search finds `sub` exactly when it occurs at some position. */
  lemma {:induction false} ContainsIff(s: string, sub: string)
    ensures Contains(s, sub) <==> exists i :: OccursAt(s, sub, i)
    decreases |s|
  {
    if |sub| <= |s| && s[..|sub|] == sub {
      assert OccursAt(s, sub, 0);
    } else if |sub| <= |s| && s != [] {
      var tail := s[1..];
      ContainsIff(tail, sub);
      forall i | OccursAt(s, sub, i) ensures OccursAt(tail, sub, i - 1) {
        assert tail[i - 1..i - 1 + |sub|] == s[i..i + |sub|];
      }
      forall i | OccursAt(tail, sub, i) ensures OccursAt(s, sub, i + 1) {
        assert s[i + 1..i + 1 + |sub|] == tail[i..i + |sub|];
      }
    }
  }

  /** A non-empty `sub` whose first character `s` lacks is not in `s`. */
  lemma {:induction false} MissingFirstChar(s: string, sub: string)
    requires sub != [] && sub[0] !in s
    ensures !Contains(s, sub)
  {
    if |sub| <= |s| {
      assert s[..|sub|][0] == s[0];
      MissingFirstChar(s[1..], sub);
    }
  }

  /** `s.endswith(suffix)` */
  predicate EndsWith(s: string, suffix: string) {
    |suffix| <= |s| && s[|s| - |suffix|..] == suffix
  }

  /** SQLite's `LIKE '%sub%'` for ASCII text: case-insensitive substring test. */
  predicate ContainsIgnoringCase(s: string, sub: string) {
    Contains(LowerStr(s), LowerStr(sub))
  }

  /** The number of occurrences of `c` in `s`. */
  function CountChar(s: string, c: char): nat {
    multiset(s)[c]
  }

  /** The index of the first occurrence of `x` in `s` (Python's `index`). */
  function IndexOf<T(==)>(s: seq<T>, x: T): (i: nat)
    requires x in s
    ensures i < |s| && s[i] == x && x !in s[..i]
  {
    if s[0] == x then 0 else 1 + IndexOf(s[1..], x)
  }

  /** The index of the last occurrence of `c` in `s`, or -1 (Python's `rfind`). */
  function LastIndexOf(s: string, c: char): (i: int)
    ensures -1 <= i < |s|
    ensures i >= 0 ==> s[i] == c
    ensures forall k :: i < k < |s| ==> s[k] != c
  {
    if s == [] then -1
    else if s[|s| - 1] == c then |s| - 1
    else LastIndexOf(s[..|s| - 1], c)
  }

  /** `sep.join(parts)` for a one-character separator. */
  function Join(parts: seq<string>, sep: char): string {
    if parts == [] then []
    else if |parts| == 1 then parts[0]
    else parts[0] + [sep] + Join(parts[1..], sep)
  }

  /** `s.split(sep)` for a one-character separator: the text up to the first
      separator, then the rest split the same way. */
  function Split(s: string, sep: char): (parts: seq<string>)
    ensures |parts| >= 1
    decreases |s|
  {
    if sep !in s then [s]
    else
      var i := IndexOf(s, sep);
      [s[..i]] + Split(s[i + 1..], sep)
  }

  /** Splitting gives one more part than there are separators. */
  lemma {:induction false} SplitCount(s: string, sep: char)
    ensures |Split(s, sep)| == CountChar(s, sep) + 1
    decreases |s|
  {
    if sep in s {
      var i := IndexOf(s, sep);
      var rest := s[i + 1..];
      SplitCount(rest, sep);
      assert s == s[..i] + [sep] + rest;
      assert multiset(s) == multiset(s[..i]) + multiset{sep} + multiset(rest);
    }
  }

  /** No part holds the separator. */
  lemma {:induction false} SplitNoSeparator(s: string, sep: char)
    ensures forall k :: 0 <= k < |Split(s, sep)| ==> sep !in Split(s, sep)[k]
    decreases |s|
  {
    if sep in s {
      var i := IndexOf(s, sep);
      SplitNoSeparator(s[i + 1..], sep);
      assert Split(s, sep) == [s[..i]] + Split(s[i + 1..], sep);
    }
  }

  /** Joining the parts with the separator gives back `s`. */
  lemma {:induction false} SplitJoin(s: string, sep: char)
    ensures Join(Split(s, sep), sep) == s
    decreases |s|
  {
    if sep in s {
      var i := IndexOf(s, sep);
      var rest := s[i + 1..];
      SplitJoin(rest, sep);
      JoinCons(s[..i], Split(rest, sep), sep);
      CutAt(s, i);
    }
  }

  /** A text is the part before index `i`, the character at `i`, and the rest. */
  lemma CutAt(s: string, i: nat)
    requires i < |s|
    ensures s == s[..i] + [s[i]] + s[i + 1..]
  {
    assert s == s[..i] + s[i..];
    assert s[i..] == [s[i]] + s[i + 1..];
  }

  /** Splitting at the first separator: the text before it is the first part,
      and the rest is split the same way. */
  lemma SplitFirst(a: string, sep: char, rest: string)
    requires sep !in a
    ensures Split(a + [sep] + rest, sep) == [a] + Split(rest, sep)
  {
    var s := a + [sep] + rest;
    assert s[|a|] == sep;
    var i := IndexOf(s, sep);
    assert s[..i] == a;
    assert s[i + 1..] == rest;
  }

  /** Joining a part in front of some parts puts the separator after it. */
  lemma JoinCons(head: string, parts: seq<string>, sep: char)
    requires parts != []
    ensures Join([head] + parts, sep) == head + [sep] + Join(parts, sep)
  {
    assert ([head] + parts)[1..] == parts;
  }

  /** Joining three parts puts the separator between them. */
  lemma JoinThree(a: string, b: string, c: string, sep: char)
    ensures Join([a, b, c], sep) == a + [sep] + b + [sep] + c
  {
    assert [a, b, c][1..] == [b, c];
    assert [b, c][1..] == [c];
    assert Join([b, c], sep) == b + [sep] + c;
    assert Join([a, b, c], sep) == a + [sep] + (b + [sep] + c);
  }

  /** The extension that `os.path.splitext` (POSIX) splits off a path: from the last
      dot to the end, provided that dot comes after the last slash and the file name
      before it is not made of dots only; otherwise the empty string. */
  function Extension(p: string): (ext: string)
    ensures ext == [] || (ext[0] == '.' && EndsWith(p, ext))
    ensures forall k :: 0 < k < |ext| ==> ext[k] != '.' && ext[k] != '/'
    ensures ext != [] <==>
              && LastIndexOf(p, '.') > LastIndexOf(p, '/')
              && exists k :: LastIndexOf(p, '/') < k < LastIndexOf(p, '.') && p[k] != '.'
    ensures ext != [] ==> ext == p[LastIndexOf(p, '.')..]
  {
    var sepIndex := LastIndexOf(p, '/');
    var dotIndex := LastIndexOf(p, '.');
    if dotIndex > sepIndex && exists k :: sepIndex < k < dotIndex && p[k] != '.' then
      p[dotIndex..]
    else
      []
  }

  /** `os.path.join(folder, name)` (POSIX) for two parts: a name that starts with
      `/` is absolute and replaces the folder; otherwise the two are joined with a
      `/`, except after a folder that is empty or already ends in `/`. */
  function PathJoin(folder: string, name: string): (path: string)
    ensures EndsWith(path, name)
    ensures |name| > 0 && name[0] == '/' ==> path == name
    ensures |folder| > 0 && folder[0] != '/' && folder[|folder| - 1] != '/' ==>
              (folder + "/" <= path <==> |name| == 0 || name[0] != '/')
  {
    if |name| > 0 && name[0] == '/' then name
    else if folder == [] || folder[|folder| - 1] == '/' then folder + name
    else folder + "/" + name
  }

  /** A name whose only dot is its first character, such as `.md`, has no
      extension. */
  lemma DotFileHasNoExtension(p: string)
    requires |p| > 0 && p[0] == '.' && '/' !in p
    requires forall k :: 0 < k < |p| ==> p[k] != '.'
    ensures Extension(p) == []
  {
    assert LastIndexOf(p, '.') == 0;
    assert LastIndexOf(p, '/') == -1;
  }

  /** The body of a Python integer literal: digits, with single underscores allowed
      between two digits. */
  predicate IsDigitGroups(s: string) {
    && |s| > 0
    && IsDigit(s[0]) && IsDigit(s[|s| - 1])
    && (forall i :: 0 <= i < |s| ==> IsDigit(s[i]) || s[i] == '_')
    && (forall i :: 0 <= i < |s| - 1 ==> !(s[i] == '_' && s[i + 1] == '_'))
  }

  /** The decimal value of the digits of `s`, skipping underscores. */
  function DigitsValue(s: string): nat {
    if s == [] then 0
    else if IsDigit(s[|s| - 1]) then DigitsValue(s[..|s| - 1]) * 10 + (s[|s| - 1] as int - '0' as int)
    else DigitsValue(s[..|s| - 1])
  }

  /** `int(s)` for a string `s`: surrounding white space, then an optional sign,
      then digit groups. `None` stands for the `ValueError` Python raises. */
  function ParseInt(s: string): (r: Option<int>)
    ensures r.Some? <==> exists body :: IsIntLiteral(Strip(s), body)
    ensures forall body :: IsIntLiteral(Strip(s), body) ==> r == Some(SignedValue(Strip(s), body))
  {
    var t := Strip(s);
    var body := LiteralBody(t);
    if IsDigitGroups(body) then Some(SignedValue(t, body)) else None
  }

  /** The digits of a literal: what follows its sign, if any. It is the only
      candidate body, and a body exactly when it is made of digit groups. */
  function LiteralBody(t: string): (body: string)
    ensures forall b :: IsIntLiteral(t, b) ==> b == body
    ensures IsDigitGroups(body) ==> IsIntLiteral(t, body)
  {
    if t == [] then []
    else
      assert t == [t[0]] + t[1..];
      if t[0] == '+' || t[0] == '-' then t[1..] else t
  }

  /** The value of the literal `t` with digit groups `body`: negated when `t`
      starts with a minus sign. */
  function SignedValue(t: string, body: string): int
    requires IsIntLiteral(t, body)
  {
    if t[0] == '-' then -(DigitsValue(body) as int) else DigitsValue(body)
  }

  /** `t` is an optional sign followed by the digit groups `body`. */
  predicate IsIntLiteral(t: string, body: string) {
    IsDigitGroups(body) && (t == body || t == ['+'] + body || t == ['-'] + body)
  }

  /** Stripping keeps a first character that is not white space. */
  lemma StripKeepsFirst(s: string)
    requires |s| > 0 && !IsSpace(s[0])
    ensures Strip(s) != [] && Strip(s)[0] == s[0]
  {
    assert StripLeft(s) == s;
  }

  /** Text that starts with neither a sign nor a digit has no integer body. */
  lemma NoLiteralBody(t: string)
    requires t != [] && t[0] != '+' && t[0] != '-' && !IsDigit(t[0])
    ensures forall body :: !IsIntLiteral(t, body)
  {
    forall body ensures !IsIntLiteral(t, body) {
      if t != body {
        assert t[0] == if t == ['+'] + body then '+' else if t == ['-'] + body then '-' else t[0];
      }
    }
  }

  /** A plain string of decimal digits parses to its decimal value. */
  lemma {:induction false} ParseDigits(s: string)
    requires |s| > 0 && forall i :: 0 <= i < |s| ==> IsDigit(s[i])
    ensures ParseInt(s) == Some(DigitsValue(s) as int)
  {
    assert StripLeft(s) == s;
    assert StripRight(s) == s;
  }
}
