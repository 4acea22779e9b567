/** Characters and strings as the JavaScript string operations of the
    entry-summary parser and the query builder see them. */
module Text {

  datatype Option<+T> = None | Some(value: T)

  datatype Result<+T, +E> = Success(value: T) | Failure(error: E)

  predicate IsDigit(c: char) { '0' <= c <= '9' }

  predicate IsUpper(c: char) { 'A' <= c <= 'Z' }

  /** `[A-Z0-9]` without the `i` flag. */
  predicate IsUpperOrDigit(c: char) { IsUpper(c) || IsDigit(c) }

  /** `[A-Z0-9]` under the `i` flag: ASCII letters of either case and digits. */
  predicate IsAsciiAlnum(c: char) { IsUpperOrDigit(c) || ('a' <= c <= 'z') }

  predicate IsDigitOrComma(c: char) { IsDigit(c) || c == ',' }

  /** The characters that `\s` matches and that `String.prototype.trim`
      removes: ECMAScript WhiteSpace and LineTerminator. */
  predicate IsSpace(c: char) {
    c == '\t' || c == '\n' || c == '\U{000B}' || c == '\U{000C}' || c == '\r' || c == ' '
    || c == '\U{00A0}' || c == '\U{1680}' || ('\U{2000}' <= c <= '\U{200A}')
    || c == '\U{2028}' || c == '\U{2029}' || c == '\U{202F}' || c == '\U{205F}'
    || c == '\U{3000}' || c == '\U{FEFF}'
  }

  /** Case folding of the `i` flag without the `u` flag: a character is
      folded to an ASCII letter only when it is one, so ASCII upper-casing
      is the whole of it. */
  function UpperAscii(c: char): (u: char)
    ensures 'a' <= c <= 'z' ==> IsUpper(u)
    ensures !('a' <= c <= 'z') ==> u == c
  {
    if 'a' <= c <= 'z' then (c as int - 32) as char else c
  }

  predicate StartsWith(s: string, prefix: string) {
    |prefix| <= |s| && s[..|prefix|] == prefix
  }

  predicate StartsWithIgnoreCase(s: string, prefix: string) {
    |prefix| <= |s| && forall k :: 0 <= k < |prefix| ==> UpperAscii(s[k]) == UpperAscii(prefix[k])
  }

  /** `String.prototype.includes`: the text starts with the part, or its
      tail holds it. */
  predicate Contains(s: string, part: string)
    decreases |s|
  {
    StartsWith(s, part) || (s != [] && Contains(s[1..], part))
  }

  /** A case-insensitive regular-expression test for a literal text. */
  predicate ContainsIgnoreCase(s: string, part: string)
    decreases |s|
  {
    StartsWithIgnoreCase(s, part) || (s != [] && ContainsIgnoreCase(s[1..], part))
  }

  /** The number of leading characters of `s[from..]` that are whitespace. */
  function SpacesFrom(s: string, from: nat): (e: nat)
    requires from <= |s|
    ensures from <= e <= |s|
    ensures forall k :: from <= k < e ==> IsSpace(s[k])
    ensures e == |s| || !IsSpace(s[e])
    decreases |s| - from
  {
    if from < |s| && IsSpace(s[from]) then SpacesFrom(s, from + 1) else from
  }

  /** The start of the longest whitespace suffix of `s[..upto]`. */
  function SpacesBefore(s: string, upto: nat): (b: nat)
    requires upto <= |s|
    ensures b <= upto
    ensures forall k :: b <= k < upto ==> IsSpace(s[k])
    ensures b == 0 || !IsSpace(s[b - 1])
  {
    if upto > 0 && IsSpace(s[upto - 1]) then SpacesBefore(s, upto - 1) else upto
  }

  /** `String.prototype.trim`. */
  function Trim(s: string): (r: string)
    ensures |r| <= |s|
    ensures r == [] || (!IsSpace(r[0]) && !IsSpace(r[|r| - 1]))
    ensures r == [] ==> forall k :: 0 <= k < |s| ==> IsSpace(s[k])
  {
    var a := SpacesFrom(s, 0);
    var b := SpacesBefore(s, |s|);
    if b <= a then [] else s[a..b]
  }

  /** The end of the run of ASCII digits that starts at `i`. */
  function DigitRunEnd(s: string, i: nat): (j: nat)
    requires i <= |s|
    ensures i <= j <= |s|
    ensures forall k :: i <= k < j ==> IsDigit(s[k])
    ensures j == |s| || !IsDigit(s[j])
    decreases |s| - i
  {
    if i < |s| && IsDigit(s[i]) then DigitRunEnd(s, i + 1) else i
  }

  /** The parts with `sep` between neighbours, as `Array.prototype.join`. */
  function Join(parts: seq<string>, sep: string): (r: string)
  {
    if |parts| == 0 then ""
    else if |parts| == 1 then parts[0]
    else parts[0] + sep + Join(parts[1..], sep)
  }

  /** The text cut at every line feed, as `String.prototype.split`: always
      at least one piece, none holding a line feed. */
  function SplitLines(text: string): (lines: seq<string>)
    ensures |lines| >= 1
    ensures forall k :: 0 <= k < |lines| ==> '\n' !in lines[k]
  {
    if text == [] then [""]
    else
      var rest := SplitLines(text[1..]);
      if text[0] == '\n' then [""] + rest
      else [[text[0]] + rest[0]] + rest[1..]
  }

  /** Joining the split lines with line feeds gives the text back. */
  lemma {:induction false} JoinSplitLines(text: string)
    ensures Join(SplitLines(text), "\n") == text
  {
    if text != [] {
      var rest := SplitLines(text[1..]);
      JoinSplitLines(text[1..]);
      if text[0] == '\n' {
        assert SplitLines(text) == [""] + rest;
        assert Join([""] + rest, "\n") == "" + "\n" + Join(rest, "\n");
      } else {
        var lines := SplitLines(text);
        assert lines == [[text[0]] + rest[0]] + rest[1..];
        if |rest| == 1 {
          assert Join(lines, "\n") == [text[0]] + rest[0];
        } else {
          assert (lines)[1..] == rest[1..];
          assert Join(rest, "\n") == rest[0] + "\n" + Join(rest[1..], "\n");
          assert Join(lines, "\n") == [text[0]] + rest[0] + "\n" + Join(rest[1..], "\n");
        }
      }
    }
  }

  lemma {:induction false} SplitAfterLine(line: string, rest: string)
    requires '\n' !in line
    ensures SplitLines(line + "\n" + rest) == [line] + SplitLines(rest)
  {
    if line == [] {
      assert line + "\n" + rest == "\n" + rest;
      assert ("\n" + rest)[1..] == rest;
    } else {
      assert (line + "\n" + rest)[1..] == line[1..] + "\n" + rest;
      SplitAfterLine(line[1..], rest);
      assert [line[0]] + line[1..] == line;
    }
  }

  lemma {:induction false} SplitSingleLine(line: string)
    requires '\n' !in line
    ensures SplitLines(line) == [line]
  {
    if line != [] {
      SplitSingleLine(line[1..]);
      assert [line[0]] + line[1..] == line;
    }
  }

  /** Splitting lines that hold no line feed after joining them with line
      feeds gives the lines back. */
  lemma {:induction false} SplitJoinLines(lines: seq<string>)
    requires |lines| >= 1
    requires forall k :: 0 <= k < |lines| ==> '\n' !in lines[k]
    ensures SplitLines(Join(lines, "\n")) == lines
  {
    if |lines| == 1 {
      SplitSingleLine(lines[0]);
    } else {
      SplitJoinLines(lines[1..]);
      SplitAfterLine(lines[0], Join(lines[1..], "\n"));
      assert [lines[0]] + lines[1..] == lines;
    }
  }

  /** The value of a digit; zero for any other character. */
  function DigitValue(c: char): (d: nat)
    ensures d <= 9
  {
    if IsDigit(c) then c as int - '0' as int else 0
  }

  /** The decimal number that a string of digits spells. */
  function DigitsValue(s: string): nat
  {
    if s == [] then 0 else DigitsValue(s[..|s| - 1]) * 10 + DigitValue(s[|s| - 1])
  }

  lemma {:induction false} DigitsValueAppend(a: string, b: string)
    ensures DigitsValue(a + b) == DigitsValue(a) * Pow10(|b|) + DigitsValue(b)
    decreases |b|
  {
    if b != [] {
      var b' := b[..|b| - 1];
      var d := DigitValue(b[|b| - 1]);
      assert (a + b)[..|a + b| - 1] == a + b';
      DigitsValueAppend(a, b');
      calc {
        DigitsValue(a + b);
        DigitsValue(a + b') * 10 + d;
        (DigitsValue(a) * Pow10(|b'|) + DigitsValue(b')) * 10 + d;
        { MulAssoc(DigitsValue(a), Pow10(|b'|), 10); }
        DigitsValue(a) * (Pow10(|b'|) * 10) + DigitsValue(b') * 10 + d;
        DigitsValue(a) * Pow10(|b|) + DigitsValue(b);
      }
    } else {
      assert a + b == a;
    }
  }

  lemma MulAssoc(x: nat, y: nat, z: nat)
    ensures (x * y) * z == x * (y * z)
  {
  }

  function Pow10(n: nat): (p: nat)
    ensures p >= 1
  {
    if n == 0 then 1 else 10 * Pow10(n - 1)
  }

  /** Every comma removed. */
  function RemoveCommas(s: string): (r: string)
    ensures |r| <= |s|
    ensures ',' !in r
  {
    if s == [] then []
    else (if s[0] == ',' then [] else [s[0]]) + RemoveCommas(s[1..])
  }

  /** The digits of `s`, in order. */
  function OnlyDigits(s: string): (r: string)
    ensures forall k :: 0 <= k < |r| ==> IsDigit(r[k])
  {
    if s == [] then []
    else (if IsDigit(s[0]) then [s[0]] else []) + OnlyDigits(s[1..])
  }

  lemma {:induction false} OnlyDigitsAppend(a: string, b: string)
    ensures OnlyDigits(a + b) == OnlyDigits(a) + OnlyDigits(b)
  {
    if a != [] {
      assert (a + b)[1..] == a[1..] + b;
      OnlyDigitsAppend(a[1..], b);
    } else {
      assert a + b == b;
    }
  }

  lemma {:induction false} OnlyDigitsOfDigitsAndCommas(s: string)
    requires forall k :: 0 <= k < |s| ==> IsDigitOrComma(s[k])
    ensures OnlyDigits(s) == RemoveCommas(s)
  {
    if s != [] {
      OnlyDigitsOfDigitsAndCommas(s[1..]);
    }
  }

  lemma {:induction false} OnlyDigitsOfDigits(s: string)
    requires forall k :: 0 <= k < |s| ==> IsDigit(s[k])
    ensures OnlyDigits(s) == s
  {
    if s != [] {
      OnlyDigitsOfDigits(s[1..]);
      assert [s[0]] + s[1..] == s;
    }
  }

  /** The first present value of `xs`. */
  function FirstSome<T>(xs: seq<Option<T>>): Option<T>
  {
    if xs == [] then None
    else if xs[0].Some? then xs[0]
    else FirstSome(xs[1..])
  }

  /** The first present value is the value at the first index that has
      one, and there is none exactly when no index has one. */
  lemma {:induction false} FirstSomeIsFirstHit<T>(xs: seq<Option<T>>)
    ensures FirstSome(xs).None? <==> forall i :: 0 <= i < |xs| ==> xs[i].None?
    ensures FirstSome(xs).Some? ==>
              exists i | 0 <= i < |xs| :: xs[i] == FirstSome(xs) && forall j :: 0 <= j < i ==> xs[j].None?
  {
    if xs != [] && xs[0].None? {
      FirstSomeIsFirstHit(xs[1..]);
      if FirstSome(xs).Some? {
        var i :| 0 <= i < |xs[1..]| && xs[1..][i] == FirstSome(xs[1..]) && forall j :: 0 <= j < i ==> xs[1..][j].None?;
        assert xs[i + 1] == FirstSome(xs);
        forall j | 0 <= j < i + 1
          ensures xs[j].None?
        {
          if j > 0 {
            assert xs[j] == xs[1..][j - 1];
          }
        }
      }
      forall i | 1 <= i < |xs|
        ensures xs[i] == xs[1..][i - 1]
      {
      }
    }
  }

  /** Reaching index `i` with nothing before it, the first present value
      is the value at `i`, present or not. */
  lemma {:induction false} FirstSomeAt<T>(xs: seq<Option<T>>, i: nat)
    requires i <= |xs|
    requires forall j :: 0 <= j < i ==> xs[j].None?
    ensures i < |xs| && xs[i].Some? ==> FirstSome(xs) == xs[i]
    ensures i == |xs| ==> FirstSome(xs).None?
    decreases i
  {
    if i > 0 {
      assert xs[0].None?;
      forall j | 0 <= j < i - 1
        ensures xs[1..][j].None?
      {
        assert xs[1..][j] == xs[j + 1];
      }
      FirstSomeAt(xs[1..], i - 1);
    }
  }
}
