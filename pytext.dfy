/** The Python 2 `str` built-ins the helpers rely on: `split()` on runs of
    whitespace, `split(sep)` on a single separator, `replace(c, "")`,
    `strip()`, `int(text)` and `str(n)`. */
module PyText {
  import opened Results

  /** The characters Python 2 treats as whitespace in a byte string. */
  predicate IsSpace(c: char) {
    c == ' ' || c == '\t' || c == '\n' || c == '\r' || c == '\U{000B}' || c == '\U{000C}'
  }

  predicate NoSpace(s: string) {
    forall i :: 0 <= i < |s| ==> !IsSpace(s[i])
  }

  /** Length of the run of non-whitespace characters that starts `s`. */
  function WordLength(s: string): (n: nat)
    ensures n <= |s|
    ensures forall i :: 0 <= i < n ==> !IsSpace(s[i])
    ensures n < |s| ==> IsSpace(s[n])
    ensures s != [] && !IsSpace(s[0]) ==> n > 0
  {
    if s == [] || IsSpace(s[0]) then 0 else 1 + WordLength(s[1..])
  }

  /** `s.split()`: the maximal runs of non-whitespace characters, in order. */
  function Split(s: string): (words: seq<string>)
    ensures forall w :: w in words ==> w != [] && NoSpace(w)
    decreases |s|
  {
    if s == [] then []
    else if IsSpace(s[0]) then Split(s[1..])
    else
      var n := WordLength(s);
      [s[..n]] + Split(s[n..])
  }

  /** `" ".join(words)`. */
  function JoinSpaced(words: seq<string>): (joined: string) {
    if words == [] then ""
    else if |words| == 1 then words[0]
    else words[0] + " " + JoinSpaced(words[1..])
  }

  lemma {:induction false} WordLengthOfWord(w: string, rest: string)
    requires NoSpace(w)
    requires rest == [] || IsSpace(rest[0])
    ensures WordLength(w + rest) == |w|
  {
    if w != [] {
      assert (w + rest)[1..] == w[1..] + rest;
      WordLengthOfWord(w[1..], rest);
    }
  }

  lemma SplitAfterWord(w: string, rest: string)
    requires w != [] && NoSpace(w)
    requires rest == [] || IsSpace(rest[0])
    ensures Split(w + rest) == [w] + Split(rest)
  {
    WordLengthOfWord(w, rest);
    assert (w + rest)[..|w|] == w;
    assert (w + rest)[|w|..] == rest;
  }

  lemma SplitLeadingSpace(s: string)
    ensures Split(" " + s) == Split(s)
  {
    assert (" " + s)[1..] == s;
  }

  /** Splitting words joined by single spaces gives the words back. */
  lemma {:induction false} SplitJoinSpaced(words: seq<string>)
    requires forall w :: w in words ==> w != [] && NoSpace(w)
    ensures Split(JoinSpaced(words)) == words
  {
    if words == [] {
    } else if |words| == 1 {
      assert words[0] in words;
      SplitAfterWord(words[0], "");
      assert words[0] + "" == words[0];
    } else {
      assert words[0] in words;
      assert forall w :: w in words[1..] ==> w in words;
      SplitJoinSpaced(words[1..]);
      SplitJoinSpacedStep(words[0], words[1..]);
      assert words == [words[0]] + words[1..];
    }
  }

  /** A word put in front of words that split back, with a space between,
      splits back too. */
  lemma SplitJoinSpacedStep(w: string, ws: seq<string>)
    requires w != [] && NoSpace(w)
    requires |ws| >= 1 && Split(JoinSpaced(ws)) == ws
    ensures Split(JoinSpaced([w] + ws)) == [w] + ws
  {
    var tail := JoinSpaced(ws);
    assert ([w] + ws)[0] == w && ([w] + ws)[1..] == ws;
    assert JoinSpaced([w] + ws) == w + (" " + tail);
    SplitLeadingSpace(tail);
    SplitAfterWord(w, " " + tail);
  }

  /** `s.replace(c, "")`: `s` with every occurrence of `c` removed. */
  function RemoveAll(s: string, c: char): (r: string)
    ensures c !in r
    ensures |r| <= |s|
    ensures forall x :: x in r ==> x in s
  {
    if s == [] then []
    else (if s[0] == c then [] else [s[0]]) + RemoveAll(s[1..], c)
  }

  /** Removing a character that is absent changes nothing. */
  lemma {:induction false} RemoveAllAbsent(s: string, c: char)
    requires c !in s
    ensures RemoveAll(s, c) == s
  {
    if s != [] {
      RemoveAllAbsent(s[1..], c);
    }
  }

  /** Removal distributes over concatenation. */
  lemma {:induction false} RemoveAllAppend(s: string, t: string, c: char)
    ensures RemoveAll(s + t, c) == RemoveAll(s, c) + RemoveAll(t, c)
  {
    if s != [] {
      assert (s + t)[1..] == s[1..] + t;
      RemoveAllAppend(s[1..], t, c);
    } else {
      assert s + t == t;
    }
  }

  /** `s.split(sep)` with a one-character separator: the fields between
      separators, empty fields included, so there is always at least one. */
  function SplitOn(s: string, sep: char): (fields: seq<string>)
    ensures |fields| >= 1
    ensures forall f :: f in fields ==> sep !in f
  {
    if s == [] then [""]
    else
      var rest := SplitOn(s[1..], sep);
      if s[0] == sep then [""] + rest
      else [[s[0]] + rest[0]] + rest[1..]
  }

  /** `sep.join(fields)`. */
  function JoinOn(fields: seq<string>, sep: char): (joined: string)
    requires |fields| >= 1
  {
    if |fields| == 1 then fields[0] else fields[0] + [sep] + JoinOn(fields[1..], sep)
  }

  /** Joining the fields of a split restores the text. */
  lemma {:induction false} JoinSplitOn(s: string, sep: char)
    ensures JoinOn(SplitOn(s, sep), sep) == s
  {
    if s != [] {
      JoinSplitOn(s[1..], sep);
      if s[0] == sep {
        JoinSplitOnSeparator(s, sep);
      } else {
        JoinSplitOnOther(s, sep);
      }
    }
  }

  /** The step of `JoinSplitOn` for a text that starts with the separator. */
  lemma JoinSplitOnSeparator(s: string, sep: char)
    requires s != [] && s[0] == sep
    requires JoinOn(SplitOn(s[1..], sep), sep) == s[1..]
    ensures JoinOn(SplitOn(s, sep), sep) == s
  {
    var rest := SplitOn(s[1..], sep);
    var fields := SplitOn(s, sep);
    assert fields == [""] + rest;
    assert fields[1..] == rest;
    assert JoinOn(fields, sep) == "" + [sep] + JoinOn(rest, sep);
    assert s == [s[0]] + s[1..];
  }

  /** The step of `JoinSplitOn` for a text that starts with another
      character, which joins the first field. */
  lemma JoinSplitOnOther(s: string, sep: char)
    requires s != [] && s[0] != sep
    requires JoinOn(SplitOn(s[1..], sep), sep) == s[1..]
    ensures JoinOn(SplitOn(s, sep), sep) == s
  {
    var rest := SplitOn(s[1..], sep);
    assert SplitOn(s, sep) == [[s[0]] + rest[0]] + rest[1..];
    JoinOnPrepend(s[0], rest, sep);
    assert s == [s[0]] + s[1..];
  }

  /** A character put in front of the first field ends up in front of the
      joined text. */
  lemma JoinOnPrepend(c: char, fields: seq<string>, sep: char)
    requires |fields| >= 1
    ensures JoinOn([[c] + fields[0]] + fields[1..], sep) == [c] + JoinOn(fields, sep)
  {
    var longer := [[c] + fields[0]] + fields[1..];
    assert longer[0] == [c] + fields[0] && longer[1..] == fields[1..];
    if |fields| > 1 {
      var joinedRest := JoinOn(fields[1..], sep);
      assert JoinOn(longer, sep) == ([c] + fields[0]) + [sep] + joinedRest;
      assert ([c] + fields[0]) + [sep] + joinedRest == [c] + (fields[0] + [sep] + joinedRest);
    }
  }

  lemma {:induction false} SplitOnPrefix(f: string, tail: string, sep: char)
    requires sep !in f
    ensures SplitOn(f + tail, sep) == [f + SplitOn(tail, sep)[0]] + SplitOn(tail, sep)[1..]
  {
    if f != [] {
      assert (f + tail)[1..] == f[1..] + tail;
      SplitOnPrefix(f[1..], tail, sep);
      assert [f[0]] + (f[1..] + SplitOn(tail, sep)[0]) == f + SplitOn(tail, sep)[0];
    } else {
      var fields := SplitOn(tail, sep);
      assert f + tail == tail;
      assert f + fields[0] == fields[0];
      assert fields == [fields[0]] + fields[1..];
    }
  }

  /** Splitting fields that do not contain the separator, joined by it,
      gives the fields back. */
  lemma {:induction false} SplitOnJoin(fields: seq<string>, sep: char)
    requires |fields| >= 1
    requires forall f :: f in fields ==> sep !in f
    ensures SplitOn(JoinOn(fields, sep), sep) == fields
  {
    if |fields| == 1 {
      SplitOnPrefix(fields[0], "", sep);
      assert fields[0] + "" == fields[0];
    } else {
      var rest := JoinOn(fields[1..], sep);
      SplitOnJoin(fields[1..], sep);
      assert ([sep] + rest)[1..] == rest;
      SplitOnPrefix(fields[0], [sep] + rest, sep);
      assert fields[0] + [sep] + rest == fields[0] + ([sep] + rest);
      assert fields[0] + "" == fields[0];
    }
  }

  /** A split has one field more than the text has separators. */
  lemma {:induction false} SplitOnCount(s: string, sep: char)
    ensures |SplitOn(s, sep)| == multiset(s)[sep] + 1
  {
    if s != [] {
      SplitOnCount(s[1..], sep);
      assert s == [s[0]] + s[1..];
      assert multiset(s) == multiset{s[0]} + multiset(s[1..]);
    }
  }

  function TrimLeft(s: string): (r: string)
    ensures r == [] || !IsSpace(r[0])
  {
    if s != [] && IsSpace(s[0]) then TrimLeft(s[1..]) else s
  }

  function TrimRight(s: string): (r: string)
    ensures r == [] || !IsSpace(r[|r| - 1])
  {
    if s != [] && IsSpace(s[|s| - 1]) then TrimRight(s[..|s| - 1]) else s
  }

  /** `s.strip()`. */
  function Strip(s: string): (stripped: string) {
    TrimRight(TrimLeft(s))
  }

  predicate IsDigit(c: char) {
    '0' <= c <= '9'
  }

  predicate AllDigits(s: string) {
    forall i :: 0 <= i < |s| ==> IsDigit(s[i])
  }

  /** The value of a string of decimal digits, read left to right. */
  function DigitsValue(s: string): (value: nat)
    requires AllDigits(s)
  {
    if s == [] then 0
    else DigitsValue(s[..|s| - 1]) * 10 + ((s[|s| - 1] as int) - ('0' as int))
  }

  /** `int(text)` in base 10 as Python 2 reads it: surrounding whitespace,
      an optional sign, more whitespace after the sign, and at least one
      digit; anything else raises ValueError. */
  function ParseInt(text: string): (parsed: Option<int>) {
    var t := Strip(text);
    if t != [] && (t[0] == '-' || t[0] == '+') then
      var digits := TrimLeft(t[1..]);
      if digits != [] && AllDigits(digits) then
        var v: int := DigitsValue(digits);
        Some(if t[0] == '-' then -v else v)
      else None
    else if t != [] && AllDigits(t) then Some(DigitsValue(t))
    else None
  }

  function DigitChar(d: nat): (c: char)
    requires d < 10
    ensures IsDigit(c) && (c as int) - ('0' as int) == d
  {
    (d + '0' as int) as char
  }

  /** `str(n)` for a natural number: its decimal digits, no leading zero. */
  function NatToString(n: nat): (s: string)
    ensures s != [] && AllDigits(s)
    ensures |s| > 1 ==> s[0] != '0'
  {
    if n < 10 then [DigitChar(n)] else NatToString(n / 10) + [DigitChar(n % 10)]
  }

  /** `str(n)`. */
  function IntToString(n: int): (digits: string) {
    if n < 0 then "-" + NatToString(-n) else NatToString(n)
  }

  lemma {:induction false} DigitsValueOfNatToString(n: nat)
    ensures DigitsValue(NatToString(n)) == n
  {
    if n >= 10 {
      DigitsValueOfNatToString(n / 10);
      var s := NatToString(n);
      assert s[..|s| - 1] == NatToString(n / 10);
    }
  }

  lemma StripUnspaced(s: string)
    requires s != [] && !IsSpace(s[0]) && !IsSpace(s[|s| - 1])
    ensures Strip(s) == s
  {
  }

  /** `int(str(n)) == n`. */
  lemma ParseIntOfIntToString(n: int)
    ensures ParseInt(IntToString(n)) == Some(n)
  {
    if n < 0 {
      var s := IntToString(n);
      StripUnspaced(s);
      assert s[1..] == NatToString(-n);
      assert TrimLeft(s[1..]) == s[1..];
      DigitsValueOfNatToString(-n);
    } else {
      var s := NatToString(n);
      StripUnspaced(s);
      DigitsValueOfNatToString(n);
    }
  }

  /** A leading zero adds nothing to the value of a digit string. */
  lemma {:induction false} DigitsValueLeadingZero(s: string)
    requires AllDigits(s)
    ensures AllDigits("0" + s) && DigitsValue("0" + s) == DigitsValue(s)
  {
    if s != [] {
      var t := "0" + s;
      assert t[..|t| - 1] == "0" + s[..|s| - 1];
      DigitsValueLeadingZero(s[..|s| - 1]);
    }
  }

  /** `int` drops a leading zero: "0" followed by `str(n)` reads back as n. */
  lemma ParseIntLeadingZero(n: nat)
    ensures ParseInt("0" + NatToString(n)) == Some(n)
  {
    var s := NatToString(n);
    DigitsValueLeadingZero(s);
    StripUnspaced("0" + s);
    DigitsValueOfNatToString(n);
  }

  /** Python 2's `int` also skips whitespace between the sign and the
      digits: `int("- 5")` is -5 and `int("+ 07")` is 7. */
  lemma SignThenSpace()
    ensures ParseInt("- 5") == Some(-5)
    ensures ParseInt("+ 07") == Some(7)
    ensures ParseInt("5 5") == None
  {
    assert Strip("- 5") == "- 5";
    assert TrimLeft(" 5") == "5";
    assert DigitsValue("5") == 5;
    assert Strip("+ 07") == "+ 07";
    assert TrimLeft(" 07") == "07";
    assert "07"[..1] == "0";
    assert DigitsValue("07") == 7;
    assert Strip("5 5") == "5 5";
    assert "5 5"[1] == ' ' && !IsDigit("5 5"[1]);
  }
}
