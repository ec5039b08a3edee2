/** The JSON values a request body carries, and the JavaScript coercions the
    handlers apply to them: truthiness, `String(v)`, `String(v || '')`, `Number(v)`. */
module Js {
  import opened Common
  import opened Text

  /** A JSON value; `Undefined` stands for a key the body does not have.
      Numbers are integers in this model. */
  datatype JsValue = Undefined | Null | Bool(b: bool) | Num(n: int) | Str(s: string) | Arr(items: seq<JsValue>) | Obj

  /** A parsed request body (`req.body`) or query object. */
  type Body = map<string, JsValue>

  /** `body[key]`. */
  function Field(body: Body, key: string): (v: JsValue)
    ensures key !in body ==> v == Undefined
  {
    if key in body then body[key] else Undefined
  }

  /** JavaScript truthiness: `undefined`, `null`, `false`, `0` and `''` are falsy. */
  predicate Truthy(v: JsValue) {
    match v
    case Undefined => false
    case Null => false
    case Bool(b) => b
    case Num(n) => n != 0
    case Str(s) => s != ""
    case Arr(_) => true
    case Obj => true
  }

  function IntToDecimal(n: int): (r: string)
    ensures |r| >= 1
  {
    if n < 0 then "-" + NatToDecimal(-n) else NatToDecimal(n)
  }

  /** `String(v)`; an array prints as its elements joined by commas, with
      `null` and `undefined` elements printing as the empty string. */
  function ToStr(v: JsValue): (r: string)
    ensures v.Str? ==> r == v.s
    decreases v
  {
    match v
    case Undefined => "undefined"
    case Null => "null"
    case Bool(b) => if b then "true" else "false"
    case Num(n) => IntToDecimal(n)
    case Str(s) => s
    case Arr(items) => ElementsText(items)
    case Obj => "[object Object]"
  }

  /** `Array.prototype.join(',')` over an array's elements. */
  function ElementsText(items: seq<JsValue>): (r: string)
    decreases items
  {
    if items == [] then ""
    else
      var head := if items[0].Undefined? || items[0].Null? then "" else ToStr(items[0]);
      if |items| == 1 then head else head + "," + ElementsText(items[1..])
  }

  /** `String(v || '')`: the text of a truthy value, `''` for a falsy one. */
  function StrOr(v: JsValue): (r: string)
    ensures !Truthy(v) ==> r == ""
    ensures v.Str? ==> r == v.s
  {
    if Truthy(v) then ToStr(v) else ""
  }

  /** `String(v || '').trim()`, the normalisation of nearly every text input. */
  function TrimmedText(v: JsValue): (r: string)
    ensures IsTrimmed(r)
    ensures v.Str? ==> r == Trim(v.s)
  {
    Trim(StrOr(v))
  }

  /** The public forms' field check: present, of type string, and not blank. */
  predicate IsNonBlankString(v: JsValue) {
    v.Str? && v.s != "" && Trim(v.s) != ""
  }

  /** The public forms' required-field loop: the first field, in the order given,
      whose value is not a non-blank string. */
  function FirstInvalid(body: Body, fields: seq<string>): (r: Option<string>)
    ensures r.None? <==> forall i :: 0 <= i < |fields| ==> IsNonBlankString(Field(body, fields[i]))
    ensures r.Some? ==> exists i :: && 0 <= i < |fields| && fields[i] == r.value
                                    && !IsNonBlankString(Field(body, fields[i]))
                                    && forall j :: 0 <= j < i ==> IsNonBlankString(Field(body, fields[j]))
  {
    if fields == [] then None
    else if !IsNonBlankString(Field(body, fields[0])) then Some(fields[0])
    else
      var r := FirstInvalid(body, fields[1..]);
      assert r.Some? ==> exists i :: && 0 <= i < |fields| && fields[i] == r.value
                                     && !IsNonBlankString(Field(body, fields[i]))
                                     && forall j :: 0 <= j < i ==> IsNonBlankString(Field(body, fields[j])) by {
        if r.Some? {
          var i :| && 0 <= i < |fields[1..]| && fields[1..][i] == r.value
                   && !IsNonBlankString(Field(body, fields[1..][i]))
                   && forall j :: 0 <= j < i ==> IsNonBlankString(Field(body, fields[1..][j]));
          assert fields[i + 1] == r.value;
          assert forall j :: 0 <= j < i + 1 ==> IsNonBlankString(Field(body, fields[j])) by {
            forall j | 0 <= j < i + 1 ensures IsNonBlankString(Field(body, fields[j])) {
              if j > 0 {
                assert fields[j] == fields[1..][j - 1];
              }
            }
          }
        }
      }
      assert r.None? ==> forall i :: 0 <= i < |fields| ==> IsNonBlankString(Field(body, fields[i])) by {
        if r.None? {
          forall i | 0 <= i < |fields| ensures IsNonBlankString(Field(body, fields[i])) {
            if i > 0 {
              assert fields[i] == fields[1..][i - 1];
            }
          }
        }
      }
      r
  }

  /** The text of a field the form check accepted: its string, trimmed. */
  function FormText(body: Body, key: string): (r: string)
    ensures IsTrimmed(r)
    ensures IsNonBlankString(Field(body, key)) ==> r == Trim(Field(body, key).s) && r != ""
  {
    var v := Field(body, key);
    if v.Str? then Trim(v.s) else ""
  }

  /** `.map((x) => String(x || '').trim()).filter(Boolean)`: the trimmed texts of an
      array's entries, the empty ones dropped. */
  function NonEmptyTexts(items: seq<JsValue>): (r: seq<string>)
    ensures |r| <= |items|
    ensures forall i :: 0 <= i < |r| ==> r[i] != "" && IsTrimmed(r[i])
  {
    if items == [] then [] else Kept(items[0]) + NonEmptyTexts(items[1..])
  }

  /** What one entry contributes: its trimmed text, unless that is empty. */
  function Kept(v: JsValue): (r: seq<string>)
    ensures |r| <= 1
    ensures forall i :: 0 <= i < |r| ==> r[i] == TrimmedText(v) && r[i] != "" && IsTrimmed(r[i])
    ensures r == [] <==> TrimmedText(v) == ""
  {
    var t := TrimmedText(v);
    if t == "" then [] else [t]
  }

  /** A text is kept exactly when it is non-empty and some entry trims to it. */
  lemma {:induction false} NonEmptyTextsMembers(items: seq<JsValue>, x: string)
    ensures x in NonEmptyTexts(items) <==> x != "" && exists i :: 0 <= i < |items| && TrimmedText(items[i]) == x
  {
    if items != [] {
      NonEmptyTextsMembers(items[1..], x);
      if x != "" && TrimmedText(items[0]) != x && (exists i :: 0 <= i < |items| && TrimmedText(items[i]) == x) {
        var i :| 0 <= i < |items| && TrimmedText(items[i]) == x;
        assert items[1..][i - 1] == items[i];
      }
      if x in NonEmptyTexts(items[1..]) {
        var i :| 0 <= i < |items[1..]| && TrimmedText(items[1..][i]) == x;
        assert TrimmedText(items[i + 1]) == x;
      }
    }
  }

  /** The kept texts of two arrays joined are those of the first, then those of the
      second: the order of the entries is kept. */
  lemma {:induction false} NonEmptyTextsAppend(xs: seq<JsValue>, ys: seq<JsValue>)
    ensures NonEmptyTexts(xs + ys) == NonEmptyTexts(xs) + NonEmptyTexts(ys)
  {
    if xs == [] {
      assert xs + ys == ys;
    } else {
      NonEmptyTextsHead(xs, ys);
      NonEmptyTextsAppend(xs[1..], ys);
      Reassociate(NonEmptyTexts(xs + ys), Kept(xs[0]), NonEmptyTexts(xs[1..] + ys),
                  NonEmptyTexts(xs), NonEmptyTexts(xs[1..]), NonEmptyTexts(ys));
    }
  }

  /** The first entry of a non-empty list contributes first, whatever follows it. */
  lemma NonEmptyTextsHead(xs: seq<JsValue>, ys: seq<JsValue>)
    requires xs != []
    ensures NonEmptyTexts(xs + ys) == Kept(xs[0]) + NonEmptyTexts(xs[1..] + ys)
  {
    assert (xs + ys)[0] == xs[0] && (xs + ys)[1..] == xs[1..] + ys;
  }

  /** Texts that are already trimmed and non-empty, sent as strings, come back
      unchanged and in order. */
  lemma {:induction false} NonEmptyTextsOfNormal(lines: seq<string>)
    requires forall i :: 0 <= i < |lines| ==> lines[i] != "" && IsTrimmed(lines[i])
    ensures NonEmptyTexts(seq(|lines|, i requires 0 <= i < |lines| => Str(lines[i]))) == lines
  {
    if lines != [] {
      var items := seq(|lines|, i requires 0 <= i < |lines| => Str(lines[i]));
      NonEmptyTextsOfNormal(lines[1..]);
      assert items[1..] == seq(|lines[1..]|, i requires 0 <= i < |lines[1..]| => Str(lines[1..][i]));
      TrimOfTrimmed(lines[0]);
      assert [lines[0]] + lines[1..] == lines;
    }
  }

  /** A number after `Number(...)`: a finite value, NaN, or an infinity (`negative`
      for -Infinity). */
  datatype JsNumber = Finite(value: int) | NaN | Infinite(negative: bool)

  /** The radix a `0x`, `0o` or `0b` prefix letter selects, either case. */
  function RadixOf(c: char): (r: Option<nat>)
    ensures r.Some? ==> r.value in {2, 8, 16}
  {
    if c == 'x' || c == 'X' then Some(16)
    else if c == 'o' || c == 'O' then Some(8)
    else if c == 'b' || c == 'B' then Some(2)
    else None
  }

  /** The value of a hexadecimal digit of either case; `None` for any other character. */
  function HexDigitValue(c: char): (r: Option<nat>)
    ensures r.Some? ==> r.value < 16
    ensures IsDigit(c) ==> r == Some(DigitValue(c))
  {
    if '0' <= c <= '9' then Some(c as int - '0' as int)
    else if 'a' <= c <= 'f' then Some(c as int - 'a' as int + 10)
    else if 'A' <= c <= 'F' then Some(c as int - 'A' as int + 10)
    else None
  }

  predicate IsRadixDigit(c: char, radix: nat) {
    HexDigitValue(c).Some? && HexDigitValue(c).value < radix
  }

  /** The value of a non-empty string of digits in `radix`. */
  function ParseRadix(s: string, radix: nat): (r: Option<nat>)
    ensures r.Some? <==> |s| >= 1 && forall i :: 0 <= i < |s| ==> IsRadixDigit(s[i], radix)
  {
    if |s| == 0 then None
    else if !IsRadixDigit(s[|s| - 1], radix) then None
    else
      var d := HexDigitValue(s[|s| - 1]).value;
      if |s| == 1 then Some(d)
      else match ParseRadix(s[..|s| - 1], radix)
        case None => None
        case Some(v) => Some(v * radix + d)
  }

  /** `Number(s)` for a string: the value of its trimmed text. */
  function StringToNumber(s: string): (r: JsNumber)
    ensures Trim(s) == "" ==> r == Finite(0)
    ensures r.Infinite? <==> Trim(s) == "Infinity" || Trim(s) == "+Infinity" || Trim(s) == "-Infinity"
    ensures r == Infinite(true) <==> Trim(s) == "-Infinity"
  {
    NumericLiteral(Trim(s))
  }

  /** The value of a trimmed numeric text: blank is 0; `Infinity` with an optional
      sign is an infinity; `0x`, `0o` and `0b` introduce an unsigned hexadecimal, octal
      or binary integer; an optionally signed decimal integer is its value; anything
      else is NaN here. */
  function NumericLiteral(t: string): (r: JsNumber)
    ensures t == "" ==> r == Finite(0)
    ensures r.Infinite? <==> t == "Infinity" || t == "+Infinity" || t == "-Infinity"
    ensures r == Infinite(true) <==> t == "-Infinity"
  {
    if t == "" then Finite(0)
    else if IsDigit(t[0]) then
      assert t != "Infinity" && t != "+Infinity" && t != "-Infinity" by {
        assert "Infinity"[0] == 'I' && "+Infinity"[0] == '+' && "-Infinity"[0] == '-';
      }
      if |t| >= 2 && t[0] == '0' && RadixOf(t[1]).Some? then
        (match ParseRadix(t[2..], RadixOf(t[1]).value) case Some(n) => Finite(n) case None => NaN)
      else (match ParseDigits(t) case Some(n) => Finite(n) case None => NaN)
    else if t[0] == '-' || t[0] == '+' then
      assert t == [t[0]] + t[1..];
      assert t != "Infinity" by {
        assert "Infinity"[0] == 'I';
      }
      assert t == "-Infinity" <==> t[0] == '-' && t[1..] == "Infinity";
      assert t == "+Infinity" <==> t[0] == '+' && t[1..] == "Infinity";
      if t[1..] == "Infinity" then Infinite(t[0] == '-')
      else (match ParseDigits(t[1..]) case Some(n) => Finite(if t[0] == '-' then -(n as int) else n) case None => NaN)
    else
      assert t != "+Infinity" && t != "-Infinity" by {
        assert "+Infinity"[0] == '+' && "-Infinity"[0] == '-';
      }
      if t == "Infinity" then Infinite(false) else NaN
  }

  /** A `0x`, `0o` or `0b` literal (either case of the letter) reads as its digits
      in that radix. */
  lemma RadixLiteral(p: char, digits: string)
    requires RadixOf(p).Some?
    requires |digits| >= 1 && forall i :: 0 <= i < |digits| ==> IsRadixDigit(digits[i], RadixOf(p).value)
    ensures StringToNumber("0" + [p] + digits) == Finite(ParseRadix(digits, RadixOf(p).value).value)
  {
    var t := "0" + [p] + digits;
    assert t[|t| - 1] == digits[|digits| - 1];
    DigitNotSpace(digits[|digits| - 1]);
    assert IsTrimmed(t);
    TrimOfTrimmed(t);
    assert StringToNumber(t) == NumericLiteral(t);
    assert IsDigit(t[0]) && t[0] == '0' && t[1] == p && t[2..] == digits;
  }

  /** No digit of any radix is white space. */
  lemma DigitNotSpace(c: char)
    requires HexDigitValue(c).Some?
    ensures !IsSpace(c)
  {
  }

  /** For example, "0x10" is sixteen. */
  lemma HexSixteen()
    ensures StringToNumber("0x10") == Finite(16)
  {
    assert "0x10" == "0" + ['x'] + "10";
    RadixLiteral('x', "10");
    assert ParseRadix("10", 16) == Some(16) by {
      assert "10"[..1] == "1";
    }
  }

  /** `Number(v)`: arrays and objects convert through their string form. */
  function ToNumber(v: JsValue): (r: JsNumber)
    ensures v.Num? ==> r == Finite(v.n)
    ensures v.Undefined? ==> r == NaN
    ensures v.Null? ==> r == Finite(0)
  {
    match v
    case Undefined => NaN
    case Null => Finite(0)
    case Bool(b) => Finite(if b then 1 else 0)
    case Num(n) => Finite(n)
    case Str(s) => StringToNumber(s)
    case Arr(_) => StringToNumber(ToStr(v))
    case Obj => StringToNumber(ToStr(v))
  }

  /** A number printed by `String` converts back to itself. */
  lemma NumberOfPrintedNat(n: nat)
    ensures StringToNumber(NatToDecimal(n)) == Finite(n)
  {
    var s := NatToDecimal(n);
    assert IsDigit(s[0]) && IsDigit(s[|s| - 1]);
    assert IsTrimmed(s);
    TrimOfTrimmed(s);
    ParseNatToDecimal(n);
    DecimalLiteral(s);
  }

  /** A string of decimal digits reads as its decimal value. */
  lemma DecimalLiteral(t: string)
    requires |t| >= 1 && forall i :: 0 <= i < |t| ==> IsDigit(t[i])
    ensures NumericLiteral(t) == match ParseDigits(t) case Some(n) => Finite(n) case None => NaN
  {
    assert IsDigit(t[0]);
    if |t| >= 2 {
      assert IsDigit(t[1]);
      assert RadixOf(t[1]).None?;
    }
  }
}
