/** The string operations of JavaScript that the handlers use: `trim`, ASCII
    `toLowerCase`, `startsWith`, `split` on one character, decimal conversion. */
module Text {
  import opened Common

  /** ECMAScript WhiteSpace and LineTerminator code points: what `String.prototype.trim` removes. */
  predicate IsSpace(c: char) {
    c == ' ' || c == '\t' || c == '\n' || c == '\r' || c == '\U{000B}' || c == '\U{000C}'
    || c == '\U{00A0}' || c == '\U{FEFF}' || c == '\U{1680}' || ('\U{2000}' <= c <= '\U{200A}')
    || c == '\U{2028}' || c == '\U{2029}' || c == '\U{202F}' || c == '\U{205F}' || c == '\U{3000}'
  }

  predicate IsBlank(s: string) {
    forall i :: 0 <= i < |s| ==> IsSpace(s[i])
  }

  /** No white space at either end. */
  predicate IsTrimmed(s: string) {
    s == [] || (!IsSpace(s[0]) && !IsSpace(s[|s| - 1]))
  }

  /** `s.trim()`: white space removed from both ends. */
  function Trim(s: string): (r: string)
    ensures IsTrimmed(r) && |r| <= |s|
    decreases |s|
  {
    if |s| > 0 && IsSpace(s[0]) then Trim(s[1..])
    else if |s| > 0 && IsSpace(s[|s| - 1]) then Trim(s[..|s| - 1])
    else s
  }

  /** What `trim` keeps is the infix of `s` starting at `k`, and everything it cuts
      off on either side is white space. */
  lemma {:induction false} TrimInfix(s: string) returns (k: nat)
    ensures k + |Trim(s)| <= |s| && Trim(s) == s[k..k + |Trim(s)|]
    ensures forall i :: 0 <= i < k ==> IsSpace(s[i])
    ensures forall i :: k + |Trim(s)| <= i < |s| ==> IsSpace(s[i])
    decreases |s|
  {
    if |s| > 0 && IsSpace(s[0]) {
      var k' := TrimInfix(s[1..]);
      k := k' + 1;
      forall i | 0 < i < k ensures IsSpace(s[i]) {
        assert s[i] == s[1..][i - 1];
      }
      forall i | k + |Trim(s)| <= i < |s| ensures IsSpace(s[i]) {
        assert s[i] == s[1..][i - 1];
      }
    } else if |s| > 0 && IsSpace(s[|s| - 1]) {
      k := TrimInfix(s[..|s| - 1]);
      forall i | k + |Trim(s)| <= i < |s| - 1 ensures IsSpace(s[i]) {
        assert s[i] == s[..|s| - 1][i];
      }
    } else {
      k := 0;
    }
  }

  /** Trimming a trimmed string changes nothing, so `trim` is idempotent. */
  lemma TrimOfTrimmed(s: string)
    requires IsTrimmed(s)
    ensures Trim(s) == s
  {
  }

  /** A string trims to the empty string exactly when it is blank. */
  lemma TrimEmptyIffBlank(s: string)
    ensures Trim(s) == "" <==> IsBlank(s)
  {
    var k := TrimInfix(s);
  }

  /** ASCII case mapping, the part of `toLowerCase` this model covers. */
  function LowerChar(c: char): char {
    if 'A' <= c <= 'Z' then (c as int + 32) as char else c
  }

  function ToLower(s: string): (r: string)
    ensures |r| == |s|
    ensures forall i :: 0 <= i < |s| ==> r[i] == LowerChar(s[i])
  {
    seq(|s|, i requires 0 <= i < |s| => LowerChar(s[i]))
  }

  predicate IsLower(s: string) {
    forall i :: 0 <= i < |s| ==> !('A' <= s[i] <= 'Z')
  }

  lemma ToLowerIsLower(s: string)
    ensures IsLower(ToLower(s))
    ensures ToLower(ToLower(s)) == ToLower(s)
  {
  }

  /** Lower-casing keeps white space where it was, so it keeps a string trimmed and non-empty. */
  lemma ToLowerKeepsTrimmed(s: string)
    requires IsTrimmed(s)
    ensures IsTrimmed(ToLower(s)) && (ToLower(s) == "" <==> s == "")
  {
  }

  predicate StartsWith(s: string, prefix: string) {
    |prefix| <= |s| && s[..|prefix|] == prefix
  }

  /** `s.split(sep)` for a one-character separator: the pieces between separators,
      at least one (the empty string splits into `[""]`). */
  function Split(s: string, sep: char): (parts: seq<string>)
    ensures |parts| >= 1
    ensures forall i :: 0 <= i < |parts| ==> sep !in parts[i]
  {
    if |s| == 0 then [""]
    else
      var rest := Split(s[1..], sep);
      if s[0] == sep then [""] + rest else [[s[0]] + rest[0]] + rest[1..]
  }

  /** `parts.join(sep)`. */
  function Join(parts: seq<string>, sep: char): string {
    if |parts| == 0 then ""
    else if |parts| == 1 then parts[0]
    else parts[0] + [sep] + Join(parts[1..], sep)
  }

  /** Joining the pieces of a split gives back the string. */
  lemma {:induction false} JoinSplit(s: string, sep: char)
    ensures Join(Split(s, sep), sep) == s
  {
    if |s| > 0 {
      var rest := Split(s[1..], sep);
      JoinSplit(s[1..], sep);
      if s[0] != sep {
        if |rest| == 1 {
          assert Split(s, sep) == [[s[0]] + rest[0]];
        } else {
          assert Split(s, sep) == [[s[0]] + rest[0]] + rest[1..];
          assert Split(s, sep)[1..] == rest[1..];
        }
      } else {
        assert Split(s, sep)[1..] == rest;
      }
    }
  }

  /** Splitting a join of separator-free pieces gives back the pieces. */
  lemma {:induction false} SplitJoin(parts: seq<string>, sep: char)
    requires |parts| >= 1
    requires forall i :: 0 <= i < |parts| ==> sep !in parts[i]
    ensures Split(Join(parts, sep), sep) == parts
  {
    if |parts| == 1 {
      SplitNoSep(parts[0], sep);
    } else {
      SplitJoin(parts[1..], sep);
      SplitPrefix(parts[0], Join(parts[1..], sep), sep);
      assert Join(parts, sep) == parts[0] + [sep] + Join(parts[1..], sep);
      assert [parts[0]] + parts[1..] == parts;
    }
  }

  lemma {:induction false} SplitNoSep(s: string, sep: char)
    requires sep !in s
    ensures Split(s, sep) == [s]
  {
    if |s| > 0 {
      SplitNoSep(s[1..], sep);
      assert [s[0]] + s[1..] == s;
    }
  }

  /** A separator-free head splits off as the first piece. */
  lemma {:induction false} SplitPrefix(head: string, tail: string, sep: char)
    requires sep !in head
    ensures Split(head + [sep] + tail, sep) == [head] + Split(tail, sep)
  {
    if |head| == 0 {
      assert head + [sep] + tail == [sep] + tail;
      assert ([sep] + tail)[1..] == tail;
    } else {
      var s := head + [sep] + tail;
      assert s[1..] == head[1..] + [sep] + tail;
      SplitPrefix(head[1..], tail, sep);
      assert [head[0]] + head[1..] == head;
    }
  }

  /** Splitting at one separator splits the two sides apart: the pieces of `a`
      come first, in order, then the pieces of `b`. */
  lemma {:induction false} SplitAround(a: string, b: string, sep: char)
    ensures Split(a + [sep] + b, sep) == Split(a, sep) + Split(b, sep)
  {
    var s := a + [sep] + b;
    if |a| == 0 {
      assert s == [sep] + b && s[1..] == b;
    } else {
      assert s[0] == a[0] && s[1..] == a[1..] + [sep] + b;
      SplitAround(a[1..], b, sep);
      var head := Split(a[1..], sep);
      var rest := Split(s[1..], sep);
      assert rest == head + Split(b, sep);
      if a[0] == sep {
        assert Split(s, sep) == [""] + rest;
        assert Split(a, sep) == [""] + head;
        Reassociate(Split(s, sep), [""], rest, Split(a, sep), head, Split(b, sep));
      } else {
        var first := [a[0]] + head[0];
        assert rest[0] == head[0] && rest[1..] == head[1..] + Split(b, sep);
        assert Split(s, sep) == [first] + rest[1..];
        assert Split(a, sep) == [first] + head[1..];
        Reassociate(Split(s, sep), [first], rest[1..], Split(a, sep), head[1..], Split(b, sep));
      }
    }
  }

  /** The step of an induction over a list built by concatenation: a head `k` before
      `m == a + b` is `k + a` before `b`. */
  lemma Reassociate<T>(l: seq<T>, k: seq<T>, m: seq<T>, p: seq<T>, a: seq<T>, b: seq<T>)
    requires l == k + m && m == a + b && p == k + a
    ensures l == p + b
  {
  }

  function TrimAll(xs: seq<string>): (r: seq<string>)
    ensures |r| == |xs|
    ensures forall i :: 0 <= i < |xs| ==> r[i] == Trim(xs[i])
  {
    seq(|xs|, i requires 0 <= i < |xs| => Trim(xs[i]))
  }

  /** `.filter(Boolean)` on strings: drops the empty ones, keeps the order. */
  function DropEmpty(xs: seq<string>): (r: seq<string>)
    ensures |r| <= |xs|
    ensures forall i :: 0 <= i < |r| ==> r[i] != ""
    ensures forall x :: x in r <==> x in xs && x != ""
  {
    if xs == [] then []
    else if xs[0] == "" then DropEmpty(xs[1..])
    else [xs[0]] + DropEmpty(xs[1..])
  }

  lemma TrimAllAppend(xs: seq<string>, ys: seq<string>)
    ensures TrimAll(xs + ys) == TrimAll(xs) + TrimAll(ys)
  {
    assert forall i :: 0 <= i < |xs + ys| ==> TrimAll(xs + ys)[i] == (TrimAll(xs) + TrimAll(ys))[i];
  }

  /** Dropping the empty strings keeps the order: it works on each part of a list separately. */
  lemma {:induction false} DropEmptyAppend(xs: seq<string>, ys: seq<string>)
    ensures DropEmpty(xs + ys) == DropEmpty(xs) + DropEmpty(ys)
  {
    if xs == [] {
      assert xs + ys == ys;
    } else {
      assert (xs + ys)[0] == xs[0] && (xs + ys)[1..] == xs[1..] + ys;
      DropEmptyAppend(xs[1..], ys);
      if xs[0] == "" {
        assert DropEmpty(xs + ys) == DropEmpty(xs[1..] + ys);
      } else {
        assert DropEmpty(xs + ys) == [xs[0]] + DropEmpty(xs[1..] + ys);
        assert DropEmpty(xs) == [xs[0]] + DropEmpty(xs[1..]);
      }
    }
  }

  /** `s.split(sep).map(t => t.trim()).filter(Boolean)`, used for the comma-separated
      origin list, the skills field and the one-per-line hotline field. */
  function SplitTrimFilter(s: string, sep: char): (r: seq<string>)
    ensures forall i :: 0 <= i < |r| ==> r[i] != "" && IsTrimmed(r[i]) && sep !in r[i]
    ensures |r| <= |Split(s, sep)|
    ensures forall x :: x in r <==> x != "" && x in TrimAll(Split(s, sep))
  {
    var parts := Split(s, sep);
    var r := DropEmpty(TrimAll(parts));
    forall i | 0 <= i < |r| ensures IsTrimmed(r[i]) && sep !in r[i] {
      assert r[i] in TrimAll(parts);
      var j :| 0 <= j < |parts| && TrimAll(parts)[j] == r[i];
      TrimIsInfix(parts[j], sep);
    }
    r
  }

  /** The kept pieces of the text before a separator come first, in order, then those
      of the text after it. */
  lemma SplitTrimFilterAround(a: string, b: string, sep: char)
    ensures SplitTrimFilter(a + [sep] + b, sep) == SplitTrimFilter(a, sep) + SplitTrimFilter(b, sep)
  {
    SplitAround(a, b, sep);
    TrimAllAppend(Split(a, sep), Split(b, sep));
    DropEmptyAppend(TrimAll(Split(a, sep)), TrimAll(Split(b, sep)));
  }

  lemma TrimIsInfix(s: string, c: char)
    requires c !in s
    ensures c !in Trim(s)
  {
    var r := Trim(s);
    var k := TrimInfix(s);
    assert forall i :: 0 <= i < |r| ==> r[i] == s[k + i];
  }

  /** Trimmed, non-empty, separator-free items survive a join followed by
      split-trim-filter unchanged, so the textarea and comma-list forms round-trip. */
  lemma {:induction false} SplitTrimFilterJoin(items: seq<string>, sep: char)
    requires forall i :: 0 <= i < |items| ==> items[i] != "" && IsTrimmed(items[i]) && sep !in items[i]
    ensures SplitTrimFilter(Join(items, sep), sep) == items
  {
    if |items| == 0 {
      assert Split("", sep) == [""];
      assert TrimAll([""]) == [""];
    } else {
      SplitJoin(items, sep);
      var t := TrimAll(items);
      forall i | 0 <= i < |items| ensures t[i] == items[i] {
        TrimOfTrimmed(items[i]);
      }
      assert t == items;
      DropEmptyOfNonEmpty(items);
    }
  }

  lemma {:induction false} DropEmptyOfNonEmpty(xs: seq<string>)
    requires forall i :: 0 <= i < |xs| ==> xs[i] != ""
    ensures DropEmpty(xs) == xs
  {
    if xs != [] {
      DropEmptyOfNonEmpty(xs[1..]);
      assert [xs[0]] + xs[1..] == xs;
    }
  }

  function Take<T>(xs: seq<T>, n: nat): (r: seq<T>)
    ensures |r| == if |xs| < n then |xs| else n
    ensures r == xs[..|r|]
  {
    if |xs| <= n then xs else xs[..n]
  }

  // ---- decimal numerals --------------------------------------------------

  predicate IsDigit(c: char) { '0' <= c <= '9' }

  function DigitChar(d: nat): char
    requires d < 10
  {
    ('0' as int + d) as char
  }

  function DigitValue(c: char): nat
    requires IsDigit(c)
  {
    c as int - '0' as int
  }

  /** The decimal numeral of `n`, as `String(n)` prints it. */
  function NatToDecimal(n: nat): (r: string)
    ensures |r| >= 1 && forall i :: 0 <= i < |r| ==> IsDigit(r[i])
  {
    if n < 10 then [DigitChar(n)] else NatToDecimal(n / 10) + [DigitChar(n % 10)]
  }

  /** The value of a non-empty string of decimal digits (leading zeros allowed). */
  function ParseDigits(s: string): (r: Option<nat>)
    ensures r.Some? <==> |s| >= 1 && forall i :: 0 <= i < |s| ==> IsDigit(s[i])
  {
    if |s| == 0 then None
    else if !IsDigit(s[|s| - 1]) then None
    else if |s| == 1 then Some(DigitValue(s[0]))
    else match ParseDigits(s[..|s| - 1])
      case None => None
      case Some(v) => Some(v * 10 + DigitValue(s[|s| - 1]))
  }

  /** Reading back a printed numeral gives the number. */
  lemma {:induction false} ParseNatToDecimal(n: nat)
    ensures ParseDigits(NatToDecimal(n)) == Some(n)
  {
    if n >= 10 {
      var s := NatToDecimal(n);
      ParseNatToDecimal(n / 10);
      assert s[..|s| - 1] == NatToDecimal(n / 10);
    }
  }
}
