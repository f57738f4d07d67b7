/** The Ruby String operations the connection-string parser relies on:
    `start_with?`, `index`, `sub!` (with a literal or a `/^literal/`
    pattern), `gsub!` with an empty replacement, `split` on a one-character
    separator, `to_i`, `Integer#to_s` and ActiveSupport's `blank?`. */
module RubyText {
  import opened Values

  predicate StartsWith(s: string, p: string) {
    |p| <= |s| && s[..|p|] == p
  }

  predicate EndsWith(s: string, p: string) {
    |p| <= |s| && s[|s| - |p|..] == p
  }

  /** `p` occurs in `s` at index `i`. */
  predicate OccursAt(s: string, p: string, i: int) {
    0 <= i && i + |p| <= |s| && s[i..i + |p|] == p
  }

  /** What `^` matches in a Ruby regular expression: the start of the string
      or a position just after a newline. */
  predicate LineStart(s: string, i: int) {
    i == 0 || (0 < i <= |s| && s[i - 1] == '\n')
  }

  /** `p` matches at `i`; `anchored` stands for the regular expression `/^p/`. */
  predicate MatchAt(s: string, p: string, i: int, anchored: bool) {
    OccursAt(s, p, i) && (anchored ==> LineStart(s, i))
  }

  /** The first match of `p` in `s` at or after `i`. */
  function FindFrom(s: string, p: string, i: nat, anchored: bool): Option<nat>
    decreases |s| - i
  {
    if i + |p| > |s| then None
    else if MatchAt(s, p, i, anchored) then Some(i)
    else FindFrom(s, p, i + 1, anchored)
  }

  /** The search finds the first match from `i` on, and finds one whenever
      there is one. */
  lemma {:induction false} FindFromFirst(s: string, p: string, i: nat, anchored: bool)
    ensures var r := FindFrom(s, p, i, anchored);
      && (r.Some? ==> i <= r.value && MatchAt(s, p, r.value, anchored))
      && (forall k | i <= k && (r.Some? ==> k < r.value) :: !MatchAt(s, p, k, anchored))
    decreases |s| - i
  {
    if i + |p| <= |s| && !MatchAt(s, p, i, anchored) {
      FindFromFirst(s, p, i + 1, anchored);
    }
  }

  /** `s.index(p)` is truthy. */
  predicate Contains(s: string, p: string) {
    FindFrom(s, p, 0, false).Some?
  }

  /** `Contains` holds exactly when `p` occurs somewhere in `s`. */
  lemma ContainsOccurs(s: string, p: string)
    ensures Contains(s, p) <==> exists i | 0 <= i <= |s| :: OccursAt(s, p, i)
  {
    FindFromFirst(s, p, 0, false);
    if exists i | 0 <= i <= |s| :: OccursAt(s, p, i) {
      var i :| 0 <= i <= |s| && OccursAt(s, p, i);
      assert MatchAt(s, p, i, false);
    }
  }

  /** `s.sub(p, r)`: the first match of `p` replaced by `r`. */
  function Sub(s: string, p: string, r: string, anchored: bool): string {
    var j := FindFrom(s, p, 0, anchored);
    if j.None? || j.value + |p| > |s| then s
    else s[..j.value] + r + s[j.value + |p|..]
  }

  /** `s.gsub(p, '')`: every match of `p`, scanning left to right without
      overlap, removed. */
  function RemoveAll(s: string, p: string): string
    requires p != []
    decreases |s|
  {
    if |s| < |p| then s
    else if s[..|p|] == p then RemoveAll(s[|p|..], p)
    else [s[0]] + RemoveAll(s[1..], p)
  }

  /** Nothing is removed when nothing matches. */
  lemma {:induction false} RemoveAllNoMatch(s: string, p: string)
    requires p != [] && !Contains(s, p)
    ensures RemoveAll(s, p) == s
    decreases |s|
  {
    ContainsOccurs(s, p);
    if |s| >= |p| {
      assert !OccursAt(s, p, 0);
      ContainsInTail(s, p);
      RemoveAllNoMatch(s[1..], p);
    }
  }

  /** Removing matches only removes characters. */
  lemma {:induction false} RemoveAllErases(s: string, p: string)
    requires p != []
    ensures multiset(RemoveAll(s, p)) <= multiset(s)
    decreases |s|
  {
    if |s| >= |p| {
      if s[..|p|] == p {
        RemoveAllErases(s[|p|..], p);
        assert s == s[..|p|] + s[|p|..];
      } else {
        RemoveAllErases(s[1..], p);
        assert s == [s[0]] + s[1..];
      }
    }
  }

  /** An occurrence in `s[1..]` is an occurrence in `s`. */
  lemma ContainsInTail(s: string, p: string)
    requires |s| > 0
    ensures Contains(s[1..], p) ==> Contains(s, p)
  {
    ContainsOccurs(s, p);
    ContainsOccurs(s[1..], p);
    if Contains(s[1..], p) {
      var i :| 0 <= i <= |s[1..]| && OccursAt(s[1..], p, i);
      assert s[i + 1..i + 1 + |p|] == s[1..][i..i + |p|];
      assert OccursAt(s, p, i + 1);
    }
  }

  /** Cutting a slice out of a string only removes characters. */
  lemma CutErases(s: string, j: nat, k: nat)
    requires j <= k <= |s|
    ensures multiset(s[..j] + s[k..]) <= multiset(s)
  {
    assert s == s[..j] + s[j..k] + s[k..];
  }

  /** Replacing a match by nothing only removes characters. */
  lemma SubErases(s: string, p: string, anchored: bool)
    ensures multiset(Sub(s, p, "", anchored)) <= multiset(s)
  {
    var r := FindFrom(s, p, 0, anchored);
    var t := Sub(s, p, "", anchored);
    if r.None? || r.value + |p| > |s| {
      assert t == s;
    } else {
      var j := r.value;
      assert t == s[..j] + "" + s[j + |p|..];
      assert s[..j] + "" == s[..j];
      CutErases(s, j, j + |p|);
    }
  }

  /** Removing the matches of a pattern that does not start like `s` keeps the
      first character. */
  lemma RemoveAllKeepsHead(s: string, p: string)
    requires |s| > 0 && p != [] && p[0] != s[0]
    ensures |RemoveAll(s, p)| > 0 && RemoveAll(s, p)[0] == s[0]
  {
  }

  /** Removing a match that does not start the string keeps the first
      character. */
  lemma SubKeepsHead(s: string, p: string, anchored: bool)
    requires |s| > 0 && p != [] && p[0] != s[0]
    ensures |Sub(s, p, "", anchored)| > 0 && Sub(s, p, "", anchored)[0] == s[0]
  {
    FindFromFirst(s, p, 0, anchored);
    var r := FindFrom(s, p, 0, anchored);
    if r.Some? {
      var j := r.value;
      assert j != 0 by { assert s[j..j + |p|][0] == s[j]; }
    }
  }

  /** The leading `p` is the first match when `s` starts with `p`. */
  lemma SubAtStart(s: string, p: string, r: string, anchored: bool)
    requires StartsWith(s, p)
    ensures Sub(s, p, r, anchored) == r + s[|p|..]
  {
    assert MatchAt(s, p, 0, anchored);
    assert s[..0] == [];
  }

  /** Nothing is replaced when nothing matches. */
  lemma SubNoMatch(s: string, p: string, r: string, anchored: bool)
    requires forall i | 0 <= i <= |s| :: !MatchAt(s, p, i, anchored)
    ensures Sub(s, p, r, anchored) == s
  {
    FindFromFirst(s, p, 0, anchored);
  }

  /** Characters that never occur in `s` rule out a pattern containing one. */
  lemma NotContainsByChar(s: string, p: string, k: nat)
    requires k < |p| && p[k] !in s
    ensures !Contains(s, p)
  {
    ContainsOccurs(s, p);
  }

  // ---- String#split on a one-character separator -------------------------

  /** The fields of `s` between occurrences of `c`, before `split` drops the
      trailing empty ones. */
  function Fields(s: string, c: char): (fs: seq<string>)
    ensures |fs| >= 1
  {
    if s == [] then [[]]
    else
      var rest := Fields(s[1..], c);
      if s[0] == c then [[]] + rest else [[s[0]] + rest[0]] + rest[1..]
  }

  /** `fs.join(c)`, the inverse of `Fields`. */
  function Join(fs: seq<string>, c: char): string
    requires |fs| >= 1
  {
    if |fs| == 1 then fs[0] else fs[0] + [c] + Join(fs[1..], c)
  }

  /** `Array#pop` while the last element is empty. */
  function DropTrailingEmpty(fs: seq<string>): seq<string> {
    if fs == [] then []
    else if fs[|fs| - 1] == [] then DropTrailingEmpty(fs[..|fs| - 1])
    else fs
  }

  /** What `split` keeps is a prefix of the fields that ends in a non-empty
      field, and every field it drops is empty. */
  lemma {:induction false} DropTrailingEmptySpec(fs: seq<string>)
    ensures var r := DropTrailingEmpty(fs);
      && |r| <= |fs| && r == fs[..|r|]
      && (r == [] || r[|r| - 1] != [])
      && (forall i | |r| <= i < |fs| :: fs[i] == [])
  {
    if fs != [] && fs[|fs| - 1] == [] {
      DropTrailingEmptySpec(fs[..|fs| - 1]);
    }
  }

  /** `s.split(c)`. */
  function Split(s: string, c: char): seq<string> {
    DropTrailingEmpty(Fields(s, c))
  }

  /** `fs[i]`: the element, or `nil` past the end. */
  function Nth(fs: seq<string>, i: nat): Option<string> {
    if i < |fs| then Some(fs[i]) else None
  }

  /** The text before the first `c` (all of `s` when there is none). */
  function Before(s: string, c: char): string {
    if s == [] || s[0] == c then [] else [s[0]] + Before(s[1..], c)
  }

  /** The text after the first `c`. */
  function After(s: string, c: char): string
    requires c in s
  {
    if s[0] == c then s[1..] else After(s[1..], c)
  }

  /** `s` has a character other than `c`. */
  predicate HasOther(s: string, c: char) {
    exists i | 0 <= i < |s| :: s[i] != c
  }

  lemma JoinPrepend(x: string, fs: seq<string>, c: char)
    requires |fs| >= 1
    ensures Join([x + fs[0]] + fs[1..], c) == x + Join(fs, c)
  {
    var gs := [x + fs[0]] + fs[1..];
    if |fs| > 1 {
      assert gs[1..] == fs[1..];
      calc {
        Join(gs, c);
        (x + fs[0]) + [c] + Join(fs[1..], c);
        x + (fs[0] + [c] + Join(fs[1..], c));
      }
    }
  }

  /** Splitting and joining again gives the original text back, and no field
      holds the separator. */
  lemma {:induction false} FieldsJoin(s: string, c: char)
    ensures Join(Fields(s, c), c) == s
    ensures forall i | 0 <= i < |Fields(s, c)| :: c !in Fields(s, c)[i]
  {
    if s != [] {
      FieldsJoin(s[1..], c);
      var rest := Fields(s[1..], c);
      if s[0] == c {
        assert Fields(s, c)[1..] == rest;
        assert s == [c] + s[1..];
      } else {
        JoinPrepend([s[0]], rest, c);
        assert s == [s[0]] + s[1..];
        forall i | 0 <= i < |Fields(s, c)| ensures c !in Fields(s, c)[i] {
          if i > 0 { assert Fields(s, c)[i] == rest[i]; }
        }
      }
    }
  }

  /** The first field is the text before the first separator, and the rest are
      the fields of the text after it. */
  lemma {:induction false} FieldsHead(s: string, c: char)
    ensures Fields(s, c)[0] == Before(s, c)
    ensures c in s ==> Fields(s, c)[1..] == Fields(After(s, c), c)
  {
    if s != [] && s[0] != c {
      FieldsHead(s[1..], c);
      assert c in s ==> c in s[1..] by {
        if c in s {
          var i :| 0 <= i < |s| && s[i] == c;
          assert s[1..][i - 1] == c;
        }
      }
    }
  }

  /** Some field is non-empty exactly when `s` has a non-separator character. */
  lemma {:induction false} SomeFieldNonEmpty(s: string, c: char)
    ensures (exists i | 0 <= i < |Fields(s, c)| :: Fields(s, c)[i] != []) <==> HasOther(s, c)
  {
    if s != [] {
      SomeFieldNonEmpty(s[1..], c);
      var rest := Fields(s[1..], c);
      if s[0] == c {
        if HasOther(s, c) {
          var i :| 0 <= i < |s| && s[i] != c;
          assert s[1..][i - 1] != c;
          var j :| 0 <= j < |rest| && rest[j] != [];
          assert Fields(s, c)[j + 1] == rest[j];
        }
        if exists i | 0 <= i < |Fields(s, c)| :: Fields(s, c)[i] != [] {
          var i :| 0 <= i < |Fields(s, c)| && Fields(s, c)[i] != [];
          assert Fields(s, c) == [[]] + rest;
          assert i > 0 && rest[i - 1] == Fields(s, c)[i];
          assert exists j | 0 <= j < |Fields(s[1..], c)| :: Fields(s[1..], c)[j] != [];
          assert HasOther(s[1..], c);
          var k :| 0 <= k < |s[1..]| && s[1..][k] != c;
          assert s[k + 1] != c;
        }
      } else {
        assert Fields(s, c)[0] != [];
        assert s[0] != c;
      }
    }
  }

  /** The `i`-th element survives `split` exactly when some field from `i` on
      is non-empty. */
  lemma DropTrailingEmptyLength(fs: seq<string>, i: nat)
    ensures i < |DropTrailingEmpty(fs)| <==> exists j | i <= j < |fs| :: fs[j] != []
  {
    var r := DropTrailingEmpty(fs);
    DropTrailingEmptySpec(fs);
    if i < |r| {
      assert fs[|r| - 1] == r[|r| - 1];
    }
  }

  /** A positional reading of `s.split(c)[0]`: the text before the first
      separator, or `nil` when `s` is nothing but separators. */
  function FirstField(s: string, c: char): Option<string> {
    if HasOther(s, c) then Some(Before(s, c)) else None
  }

  /** A positional reading of `s.split(c)[1]`: the text between the first and
      the second separator, or `nil` when nothing but separators follows the
      first one (or there is none). */
  function SecondField(s: string, c: char): Option<string> {
    if c in s && HasOther(After(s, c), c) then Some(Before(After(s, c), c)) else None
  }

  /** The two fields of `s.split(c)` the parser reads agree with their
      positional readings. */
  lemma SplitFirstTwo(s: string, c: char)
    ensures Nth(Split(s, c), 0) == FirstField(s, c)
    ensures Nth(Split(s, c), 1) == SecondField(s, c)
  {
    var fs := Fields(s, c);
    DropTrailingEmptySpec(fs);
    FieldsHead(s, c);
    SomeFieldNonEmpty(s, c);
    DropTrailingEmptyLength(fs, 0);
    DropTrailingEmptyLength(fs, 1);
    if c !in s {
      FieldsOfPlain(s, c);
    } else {
      var gs := Fields(After(s, c), c);
      SomeFieldNonEmpty(After(s, c), c);
      FieldsHead(After(s, c), c);
      assert fs[1..] == gs;
      if exists j | 1 <= j < |fs| :: fs[j] != [] {
        var j :| 1 <= j < |fs| && fs[j] != [];
        assert gs[j - 1] != [];
      }
      if exists j | 0 <= j < |gs| :: gs[j] != [] {
        var j :| 0 <= j < |gs| && gs[j] != [];
        assert fs[j + 1] != [];
      }
    }
  }

  /** The text before the first separator holds no separator. */
  lemma {:induction false} BeforeHasNoSep(s: string, c: char)
    ensures c !in Before(s, c)
  {
    if s != [] && s[0] != c {
      BeforeHasNoSep(s[1..], c);
    }
  }

  /** Before and after the separator that follows a separator-free prefix. */
  lemma {:induction false} BeforeAfterSplice(a: string, b: string, c: char)
    requires c !in a
    ensures c in a + [c] + b
    ensures Before(a + [c] + b, c) == a && After(a + [c] + b, c) == b
  {
    var s := a + [c] + b;
    assert s[|a|] == c;
    if a == [] {
      assert s == [c] + b;
    } else {
      BeforeAfterSplice(a[1..], b, c);
      assert s[1..] == a[1..] + [c] + b;
      assert [a[0]] + a[1..] == a;
    }
  }

  /** A text without the separator is a single field. */
  lemma {:induction false} FieldsOfPlain(s: string, c: char)
    requires c !in s
    ensures Fields(s, c) == [s]
  {
    if s != [] {
      assert s == [s[0]] + s[1..];
      FieldsOfPlain(s[1..], c);
    }
  }

  /** The separator after a separator-free prefix splits the text there. */
  lemma {:induction false} FieldsSplice(a: string, b: string, c: char)
    requires c !in a
    ensures Fields(a + [c] + b, c) == [a] + Fields(b, c)
  {
    if a == [] {
      assert a + [c] + b == [c] + b;
      assert ([c] + b)[1..] == b;
    } else {
      FieldsSplice(a[1..], b, c);
      assert (a + [c] + b)[1..] == a[1..] + [c] + b;
      assert [a[0]] + a[1..] == a;
    }
  }

  // ---- Integers and text -------------------------------------------------

  predicate IsDigit(ch: char) {
    '0' <= ch <= '9'
  }

  /** The whitespace `String#to_i` skips before the number (C's `isspace`). */
  predicate IsAsciiSpace(ch: char) {
    ch == ' ' || '\t' <= ch <= '\r'
  }

  function SkipSpace(s: string): (r: string)
    ensures |r| <= |s| && r == s[|s| - |r|..]
  {
    if |s| > 0 && IsAsciiSpace(s[0]) then SkipSpace(s[1..]) else s
  }

  /** The digits of the numeral that starts `s`: a digit, then digits each
      optionally preceded by one underscore. */
  function LeadingDigits(s: string): (d: string)
    ensures forall i | 0 <= i < |d| :: IsDigit(d[i])
  {
    if |s| > 0 && IsDigit(s[0]) then [s[0]] + MoreDigits(s[1..]) else []
  }

  function MoreDigits(s: string): (d: string)
    ensures forall i | 0 <= i < |d| :: IsDigit(d[i])
  {
    if |s| > 0 && IsDigit(s[0]) then [s[0]] + MoreDigits(s[1..])
    else if |s| > 1 && s[0] == '_' && IsDigit(s[1]) then [s[1]] + MoreDigits(s[2..])
    else []
  }

  function DigitValue(ch: char): nat
    requires IsDigit(ch)
  {
    ch as int - '0' as int
  }

  function DigitChar(n: nat): char
    requires n < 10
  {
    ('0' as int + n) as char
  }

  /** The number a string of decimal digits denotes. */
  function DecimalValue(d: string): nat
    requires forall i | 0 <= i < |d| :: IsDigit(d[i])
  {
    if d == [] then 0 else DecimalValue(d[..|d| - 1]) * 10 + DigitValue(d[|d| - 1])
  }

  /** The text after an optional sign. */
  function Unsigned(t: string): string {
    if |t| > 0 && (t[0] == '-' || t[0] == '+') then t[1..] else t
  }

  /** The text after the optional `0d` radix prefix Ruby accepts in base 10. */
  function WithoutRadix(u: string): string {
    if |u| >= 2 && u[0] == '0' && (u[1] == 'd' || u[1] == 'D') then u[2..] else u
  }

  /** `s.to_i`: after leading whitespace, an optional sign and the optional
      radix prefix, the value of the leading numeral, or 0 when there is
      none. */
  function ToI(s: string): int {
    var t := SkipSpace(s);
    var n: int := DecimalValue(LeadingDigits(WithoutRadix(Unsigned(t))));
    if |t| > 0 && t[0] == '-' then -n else n
  }

  /** `nil.to_i` is 0. */
  function OptToI(s: Option<string>): int {
    if s.None? then 0 else ToI(s.value)
  }

  function NatToS(n: nat): (r: string)
    ensures |r| >= 1 && forall i | 0 <= i < |r| :: IsDigit(r[i])
  {
    if n < 10 then [DigitChar(n)] else NatToS(n / 10) + [DigitChar(n % 10)]
  }

  /** `n.to_s`. */
  function IntToS(n: int): string {
    if n < 0 then "-" + NatToS(-n) else NatToS(n)
  }

  lemma {:induction false} NatToSValue(n: nat)
    ensures DecimalValue(NatToS(n)) == n
  {
    var d := NatToS(n);
    if n >= 10 {
      NatToSValue(n / 10);
      assert d[..|d| - 1] == NatToS(n / 10);
    }
  }

  lemma {:induction false} MoreDigitsOfDigits(d: string)
    requires forall i | 0 <= i < |d| :: IsDigit(d[i])
    ensures MoreDigits(d) == d
  {
    if d != [] {
      MoreDigitsOfDigits(d[1..]);
    }
  }

  /** A numeral of plain digits is its own leading numeral. */
  lemma LeadingDigitsOfDigits(d: string)
    requires |d| >= 1 && forall i | 0 <= i < |d| :: IsDigit(d[i])
    ensures LeadingDigits(d) == d
  {
    MoreDigitsOfDigits(d[1..]);
    assert d == [d[0]] + d[1..];
  }

  lemma SkipSpaceStops(t: string)
    requires |t| >= 1 && !IsAsciiSpace(t[0])
    ensures SkipSpace(t) == t
  {
  }

  lemma NoSignNoRadix(d: string)
    requires |d| >= 1 && IsDigit(d[0]) && (|d| >= 2 ==> IsDigit(d[1]))
    ensures Unsigned(d) == d && WithoutRadix(d) == d
  {
  }

  /** A numeral of plain digits is read back whole. */
  lemma ToIOfDigits(d: string)
    requires |d| >= 1 && forall i | 0 <= i < |d| :: IsDigit(d[i])
    ensures ToI(d) == DecimalValue(d)
  {
    SkipSpaceStops(d);
    NoSignNoRadix(d);
    LeadingDigitsOfDigits(d);
  }

  /** A minus sign followed by plain digits is read back as the negation. */
  lemma ToIOfNegatedDigits(d: string)
    requires |d| >= 1 && forall i | 0 <= i < |d| :: IsDigit(d[i])
    ensures ToI("-" + d) == 0 - DecimalValue(d)
  {
    var m := "-" + d;
    SkipSpaceStops(m);
    assert Unsigned(m) == d by {
      assert m[1..] == d;
    }
    NoSignNoRadix(d);
    LeadingDigitsOfDigits(d);
  }

  /** `n.to_s.to_i == n` for every integer. */
  lemma ToIOfIntToS(n: int)
    ensures ToI(IntToS(n)) == n
  {
    var m: nat := if n < 0 then -n else n;
    NatToSValue(m);
    if n < 0 {
      ToIOfNegatedDigits(NatToS(m));
    } else {
      ToIOfDigits(NatToS(m));
    }
  }

  // ---- ActiveSupport's blank? ---------------------------------------------

  /** The Unicode White_Space characters, which `[[:space:]]` matches. */
  predicate IsUnicodeSpace(ch: char) {
    || ('\t' <= ch <= '\r') || ch == ' ' || ch == '\U{0085}' || ch == '\U{00A0}'
    || ch == '\U{1680}' || ('\U{2000}' <= ch <= '\U{200A}') || ch == '\U{2028}'
    || ch == '\U{2029}' || ch == '\U{202F}' || ch == '\U{205F}' || ch == '\U{3000}'
  }

  /** `x.blank?` for `x` nil or a String: nil, empty, or only whitespace. */
  predicate Blank(s: Option<string>) {
    s.None? || forall i | 0 <= i < |s.value| :: IsUnicodeSpace(s.value[i])
  }
}
