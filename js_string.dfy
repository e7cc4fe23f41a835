/**
 * The JavaScript string built-ins the application relies on, stated over
 * Dafny strings (`seq<char>`, one `char` per UTF-16 code unit):
 * `toLowerCase`, `trim`/`\s`, `indexOf`, `slice`, `split`/`join` on a
 * one-character separator, `parseInt(s, 10)` and the decimal text of the
 * numbers the application renders into CSS.
 */
module JsString {

  datatype Option<+T> = None | Some(value: T)

  // ---------------------------------------------------------------------
  // Case folding

  /** Lower-cases one character: ASCII and Latin-1 capitals map 32 code
      points down (U+00D7, the multiplication sign, is not a letter). */
  function LowerChar(c: char): (r: char)
    ensures ('A' <= c <= 'Z') ==> r as int == c as int + 32
    ensures ('a' <= c <= 'z') ==> r == c
    ensures (c as int) < 0xC0 && !('A' <= c <= 'Z') ==> r == c
  {
    if ('A' <= c <= 'Z') || (0xC0 <= c as int <= 0xDE && c as int != 0xD7) then
      (c as int + 32) as char
    else
      c
  }

  /** `toLowerCase`, length-preserving and character by character. */
  function Lower(s: string): (r: string)
    ensures |r| == |s|
    ensures forall i :: 0 <= i < |s| ==> r[i] == LowerChar(s[i])
  {
    seq(|s|, i requires 0 <= i < |s| => LowerChar(s[i]))
  }

  // ---------------------------------------------------------------------
  // White space, as `\s` and `String.prototype.trim` see it

  predicate IsWhitespace(c: char)
  {
    || c == ' ' || c == '\t' || c == '\n' || c == '\r'
    || c as int == 0x0B || c as int == 0x0C || c as int == 0xA0
    || c as int == 0x1680 || (0x2000 <= c as int <= 0x200A)
    || c as int == 0x2028 || c as int == 0x2029 || c as int == 0x202F
    || c as int == 0x205F || c as int == 0x3000 || c as int == 0xFEFF
  }

  /** `s.trim() === ""`: the string is empty or white space only. */
  predicate IsBlank(s: string)
  {
    forall i :: 0 <= i < |s| ==> IsWhitespace(s[i])
  }

  // ---------------------------------------------------------------------
  // indexOf and slice

  /** `p` occurs in `s` at offset `k`. */
  predicate OccursAt(s: string, p: string, k: int)
  {
    0 <= k && k + |p| <= |s| && s[k..k + |p|] == p
  }

  /** `p` occurs at offset `k`, compared character by character. */
  predicate PrefixAt(s: string, p: string, k: nat)
    requires k + |p| <= |s|
    decreases |p|
  {
    p == [] || (s[k] == p[0] && PrefixAt(s, p[1..], k + 1))
  }

  lemma {:induction false} PrefixAtOccurs(s: string, p: string, k: nat)
    requires k + |p| <= |s|
    ensures PrefixAt(s, p, k) <==> OccursAt(s, p, k)
    decreases |p|
  {
    if p != [] {
      PrefixAtOccurs(s, p[1..], k + 1);
      assert s[k..k + |p|] == [s[k]] + s[k + 1..k + 1 + |p[1..]|];
      assert p == [p[0]] + p[1..];
    }
  }

  /** `s.indexOf(p, from)` for `from` within the string: the first offset at
      or after `from` where `p` occurs, or -1. */
  function IndexOf(s: string, p: string, from: nat): (r: int)
    requires from <= |s|
    ensures r == -1 || (from <= r && OccursAt(s, p, r))
    ensures r == -1 ==> forall k :: from <= k ==> !OccursAt(s, p, k)
    ensures r >= 0 ==> forall k :: from <= k < r ==> !OccursAt(s, p, k)
    decreases |s| - from
  {
    if from + |p| > |s| then
      -1
    else if (PrefixAtOccurs(s, p, from); PrefixAt(s, p, from)) then
      from
    else
      IndexOf(s, p, from + 1)
  }

  /** Clamps one `slice` argument the way JavaScript does. */
  function SliceBound(n: int, len: nat): (r: nat)
    ensures r <= len
    ensures 0 <= n <= len ==> r == n
  {
    if n < 0 then (if len + n < 0 then 0 else len + n) else if n > len then len else n
  }

  /** `s.slice(a, b)`. */
  function Slice(s: string, a: int, b: int): (r: string)
    ensures 0 <= a <= b <= |s| ==> r == s[a..b]
    ensures |r| <= |s|
  {
    var lo := SliceBound(a, |s|);
    var hi := SliceBound(b, |s|);
    if lo >= hi then [] else s[lo..hi]
  }

  // ---------------------------------------------------------------------
  // split and join on a one-character separator

  /** `s.split(sep)`: always at least one part, no part holds `sep`. */
  function Split(s: string, sep: char): (parts: seq<string>)
    ensures |parts| >= 1
    ensures forall i :: 0 <= i < |parts| ==> sep !in parts[i]
  {
    if s == [] then [[]]
    else
      var rest := Split(s[1..], sep);
      if s[0] == sep then [[]] + rest
      else [[s[0]] + rest[0]] + rest[1..]
  }

  /** `parts.join(sep)`. */
  function Join(parts: seq<string>, sep: string): string
  {
    if parts == [] then []
    else if |parts| == 1 then parts[0]
    else parts[0] + sep + Join(parts[1..], sep)
  }

  /** Splitting and joining with the same separator gives back the text. */
  lemma {:induction false} JoinSplit(s: string, sep: char)
    ensures Join(Split(s, sep), [sep]) == s
  {
    if s != [] {
      JoinSplit(s[1..], sep);
      var rest := Split(s[1..], sep);
      if s[0] == sep {
        assert Split(s, sep) == [[]] + rest;
      } else {
        var parts := Split(s, sep);
        assert parts == [[s[0]] + rest[0]] + rest[1..];
        if |rest| == 1 {
          assert Join(parts, [sep]) == [s[0]] + rest[0];
        } else {
          assert parts[1..] == rest[1..];
          assert Join(rest, [sep]) == rest[0] + [sep] + Join(rest[1..], [sep]);
        }
      }
    }
  }

  /** Joining parts free of the separator and splitting again gives the parts back. */
  lemma {:induction false} SplitJoin(parts: seq<string>, sep: char)
    requires |parts| >= 1
    requires forall i :: 0 <= i < |parts| ==> sep !in parts[i]
    ensures Split(Join(parts, [sep]), sep) == parts
    decreases |parts|, |parts[0]|
  {
    var p := parts[0];
    if p == [] {
      if |parts| > 1 {
        SplitJoin(parts[1..], sep);
        var j := Join(parts, [sep]);
        assert j == [sep] + Join(parts[1..], [sep]);
        assert j[1..] == Join(parts[1..], [sep]);
        assert Split(j, sep) == [[]] + parts[1..];
      }
    } else {
      var shorter := [p[1..]] + parts[1..];
      assert sep !in shorter[0] by { assert forall c :: c in p[1..] ==> c in p; }
      SplitJoin(shorter, sep);
      var j := Join(parts, [sep]);
      if |parts| == 1 {
        assert j == p;
        assert Join(shorter, [sep]) == p[1..];
      } else {
        assert j == p + [sep] + Join(parts[1..], [sep]);
        assert Join(shorter, [sep]) == p[1..] + [sep] + Join(parts[1..], [sep]);
      }
      assert j[0] == p[0] && j[1..] == Join(shorter, [sep]);
      assert [p[0]] + p[1..] == p;
    }
  }

  /** How many times `c` occurs in `s`. */
  function CountChar(s: string, c: char): nat
  {
    multiset(s)[c]
  }

  lemma CountCharCons(s: string, c: char)
    requires s != []
    ensures CountChar(s, c) == (if s[0] == c then 1 else 0) + CountChar(s[1..], c)
  {
    assert s == [s[0]] + s[1..];
  }

  /** A text holding n separators splits into n + 1 parts. */
  lemma {:induction false} SplitCount(s: string, sep: char)
    ensures |Split(s, sep)| == CountChar(s, sep) + 1
  {
    if s != [] {
      SplitCount(s[1..], sep);
      CountCharCons(s, sep);
    }
  }

  /** Concatenation regroups freely. */
  lemma Assoc<T>(a: seq<T>, b: seq<T>, c: seq<T>)
    ensures a + (b + c) == (a + b) + c
  {
  }

  /** `splice(i, 1)`: the elements before `i` stay where they were, the
      ones after it move down by one. */
  lemma SpliceOut<T>(s: seq<T>, i: nat, r: seq<T>)
    requires i < |s| && r == s[..i] + s[i + 1..]
    ensures |r| == |s| - 1
    ensures forall j :: 0 <= j < i ==> r[j] == s[j]
    ensures forall j :: i <= j < |r| ==> r[j] == s[j + 1]
  {
    forall j | 0 <= j < i
      ensures r[j] == s[j]
    {
      assert r[j] == s[..i][j];
    }
    forall j | i <= j < |r|
      ensures r[j] == s[j + 1]
    {
      assert r[j] == s[i + 1..][j - i];
    }
  }

  /** A non-empty sequence is its front followed by its last element. */
  lemma FrontLast<T>(s: seq<T>)
    requires s != []
    ensures s == s[..|s| - 1] + [s[|s| - 1]]
  {
  }

  /** `parts.join("")`: the parts one after the other, built from the
      back. */
  function Concat(parts: seq<string>): string
  {
    if parts == [] then [] else Concat(parts[..|parts| - 1]) + parts[|parts| - 1]
  }

  /** Concat is `join` with the empty separator. */
  lemma {:induction false} ConcatJoin(parts: seq<string>)
    ensures Concat(parts) == Join(parts, "")
  {
    if parts != [] {
      var init := parts[..|parts| - 1];
      ConcatJoin(init);
      assert parts == init + [parts[|parts| - 1]];
      JoinSnoc(init, parts[|parts| - 1], "");
      if init == [] {
        assert Concat(init) == [];
      } else {
        assert Join(init, "") + "" == Join(init, "");
      }
    }
  }

  lemma ConcatSnoc(parts: seq<string>, x: string)
    ensures Concat(parts + [x]) == Concat(parts) + x
  {
    assert (parts + [x])[..|parts|] == parts;
  }

  /** Joining one more part appends the separator and the part. */
  lemma {:induction false} JoinSnoc(parts: seq<string>, x: string, sep: string)
    ensures Join(parts + [x], sep) == if parts == [] then x else Join(parts, sep) + sep + x
  {
    if |parts| == 1 {
      assert parts + [x] == [parts[0], x];
    } else if |parts| > 1 {
      assert (parts + [x])[1..] == parts[1..] + [x];
      JoinSnoc(parts[1..], x, sep);
    }
  }

  // ---------------------------------------------------------------------
  // parseInt(s, 10) and decimal text

  predicate IsDigit(c: char)
  {
    '0' <= c <= '9'
  }

  /** The longest prefix of decimal digits. */
  function DigitPrefix(s: string): (d: string)
    ensures |d| <= |s| && d == s[..|d|]
    ensures forall i :: 0 <= i < |d| ==> IsDigit(d[i])
    ensures |d| < |s| ==> !IsDigit(s[|d|])
  {
    if s != [] && IsDigit(s[0]) then [s[0]] + DigitPrefix(s[1..]) else []
  }

  /** The value of a string of decimal digits. */
  function DigitsValue(d: string): nat
    requires forall i :: 0 <= i < |d| ==> IsDigit(d[i])
  {
    if d == [] then 0
    else
      assert IsDigit(d[|d| - 1]);
      DigitsValue(d[..|d| - 1]) * 10 + (d[|d| - 1] as int - '0' as int)
  }

  /** Leading white space removed, as parseInt does first. */
  function TrimStart(s: string): (t: string)
    ensures |t| <= |s| && t == s[|s| - |t|..]
    ensures t == [] || !IsWhitespace(t[0])
  {
    if s != [] && IsWhitespace(s[0]) then TrimStart(s[1..]) else s
  }

  /** The number written by the digits `body` starts with, if any. */
  function ParseUnsigned(body: string): Option<int>
  {
    var d := DigitPrefix(body);
    if d == [] then None else Some(DigitsValue(d))
  }

  /** `parseInt(s, 10)`: None stands for NaN. */
  function ParseInt(s: string): Option<int>
  {
    var t := TrimStart(s);
    if t != [] && t[0] == '-' then
      match ParseUnsigned(t[1..])
      case None => None
      case Some(v) => Some(-v)
    else if t != [] && t[0] == '+' then ParseUnsigned(t[1..])
    else ParseUnsigned(t)
  }

  /** Decimal digits of a natural number, without leading zeros. */
  function NatText(n: nat): (d: string)
    ensures |d| >= 1
    ensures forall i :: 0 <= i < |d| ==> IsDigit(d[i])
  {
    var last := [(n % 10 + '0' as int) as char];
    if n < 10 then last else NatText(n / 10) + last
  }

  /** The digits read back as the number. */
  lemma {:induction false} NatTextValue(n: nat)
    ensures DigitsValue(NatText(n)) == n
  {
    if n >= 10 {
      NatTextValue(n / 10);
      var d := NatText(n);
      assert d[..|d| - 1] == NatText(n / 10);
    }
  }

  /** `String(n)` for an integer. */
  function IntText(n: int): string
  {
    if n < 0 then "-" + NatText(-n) else NatText(n)
  }

  /** parseInt reads back the decimal text of every integer. */
  lemma ParseIntText(n: int)
    ensures ParseInt(IntText(n)) == Some(n)
  {
    var m: nat := if n < 0 then -n else n;
    NatTextValue(m);
    if n < 0 {
      var t := IntText(n);
      assert t[1..] == NatText(m);
      ParseNegatedDigits(t);
    } else {
      ParseDigits(NatText(m));
    }
  }

  /** A digit string is read whole. */
  lemma UnsignedDigits(d: string)
    requires d != [] && forall i :: 0 <= i < |d| ==> IsDigit(d[i])
    ensures ParseUnsigned(d) == Some(DigitsValue(d))
  {
    DigitPrefixAll(d);
  }

  /** parseInt of a digit string. */
  lemma ParseDigits(d: string)
    requires d != [] && forall i :: 0 <= i < |d| ==> IsDigit(d[i])
    ensures ParseInt(d) == Some(DigitsValue(d))
  {
    UnsignedDigits(d);
    TrimStartNoSpace(d);
  }

  /** parseInt of a minus sign followed by digits. */
  lemma ParseNegatedDigits(t: string)
    requires |t| >= 2 && t[0] == '-'
    requires forall i :: 1 <= i < |t| ==> IsDigit(t[i])
    ensures ParseInt(t) == Some(-(DigitsValue(t[1..]) as int))
  {
    TrimStartNoSpace(t);
    UnsignedDigits(t[1..]);
  }

  lemma TrimStartNoSpace(t: string)
    requires t != [] && (IsDigit(t[0]) || t[0] == '-')
    ensures TrimStart(t) == t
  {
  }

  lemma {:induction false} DigitPrefixAll(d: string)
    requires forall i :: 0 <= i < |d| ==> IsDigit(d[i])
    ensures DigitPrefix(d) == d
  {
    if d != [] {
      DigitPrefixAll(d[1..]);
    }
  }

  // ---------------------------------------------------------------------
  // JavaScript numbers as the style parser produces them

  /** A number that is NaN or an exact multiple of one hundredth: parseInt
      results divided by 2 or by 20 are of this form. */
  datatype Number = NaN | Centi(hundredths: int)

  /** JavaScript truthiness of a number: neither NaN nor zero. */
  predicate Truthy(n: Number)
  {
    n.Centi? && n.hundredths != 0
  }

  /** `String(x)` for x = c/100: the shortest decimal, with no trailing zeros. */
  function CentiText(c: int): string
  {
    var m: nat := if c < 0 then -c else c;
    var sign := if c < 0 then "-" else "";
    var whole := NatText(m / 100);
    var frac := m % 100;
    if frac == 0 then sign + whole
    else if frac % 10 == 0 then sign + whole + "." + NatText(frac / 10)
    else sign + whole + "." + (if frac < 10 then "0" else "") + NatText(frac)
  }

  function NumberText(n: Number): string
  {
    match n
    case NaN => "NaN"
    case Centi(c) => CentiText(c)
  }
}
