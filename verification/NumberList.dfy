/** Lists of unsigned integers as text: printed in decimal with spaces between, or a word for no list at all. */
module NumberList {
  import opened Options

  datatype Parsed<+T> = Ok(value: T) | Malformed

  const NO_LIST := "NONE"

  // ----- one number

  function DigitChar(d: nat): (c: char)
    requires d < 10
    ensures '0' <= c <= '9' && c as int - '0' as int == d
  {
    ('0' as int + d) as char
  }

  /** The decimal digits of a number, without leading zeros. */
  function Decimal(n: nat): (s: string)
    ensures |s| > 0 && forall i :: 0 <= i < |s| ==> '0' <= s[i] <= '9'
  {
    if n < 10 then [DigitChar(n)] else Decimal(n / 10) + [DigitChar(n % 10)]
  }

  /** The value of a string of digits, if it has nothing else in it and does not exceed `max` on the way. */
  function DigitsValue(s: string, max: nat): Parsed<nat> {
    if s == "" then Ok(0)
    else
      var c := s[|s| - 1];
      match DigitsValue(s[..|s| - 1], max)
      case Malformed => Malformed
      case Ok(v) =>
        if !('0' <= c <= '9') then Malformed
        else
          var next := 10 * v + (c as int - '0' as int);
          if next > max then Malformed else Ok(next)
  }

  /** Parsing an unsigned integer: digits, at least one, perhaps behind a plus sign. */
  function ParseNumber(s: string, max: nat): Parsed<nat> {
    var digits := if s != "" && s[0] == '+' then s[1..] else s;
    if digits == "" then Malformed else DigitsValue(digits, max)
  }

  lemma {:induction false} DecimalValue(n: nat, max: nat)
    requires n <= max
    ensures DigitsValue(Decimal(n), max) == Ok(n)
  {
    if n < 10 {
      assert Decimal(n)[..0] == "";
    } else {
      DecimalValue(n / 10, max);
      assert Decimal(n)[..|Decimal(n)| - 1] == Decimal(n / 10);
    }
  }

  lemma NumberRoundTrip(n: nat, max: nat)
    requires n <= max
    ensures ParseNumber(Decimal(n), max) == Ok(n)
  {
    assert '0' <= Decimal(n)[0];
    DecimalValue(n, max);
  }

  /** Decimal text has no leading zeros: only 0 is written with a 0 in front. */
  lemma {:induction false} DecimalCanonical(n: nat)
    ensures Decimal(n)[0] == '0' <==> n == 0
    ensures Decimal(0) == "0"
  {
    if n >= 10 {
      DecimalCanonical(n / 10);
    }
  }

  function Zeros(z: nat): string {
    if z == 0 then "" else "0" + Zeros(z - 1)
  }

  lemma {:induction false} ZerosValue(z: nat, s: string, n: nat, max: nat)
    requires DigitsValue(s, max) == Ok(n)
    ensures DigitsValue(Zeros(z) + s, max) == Ok(n)
    decreases z + |s|
  {
    if s == "" {
      if z > 0 {
        ZerosValue(z - 1, "", n, max);
        LastZero(z);
        assert Zeros(z) + "" == Zeros(z);
        assert Zeros(z - 1) + "" == Zeros(z - 1);
      }
    } else {
      var t := s[..|s| - 1];
      assert (Zeros(z) + s)[..|Zeros(z) + s| - 1] == Zeros(z) + t;
      ZerosValue(z, t, DigitsValue(t, max).value, max);
    }
  }

  lemma {:induction false} LastZero(z: nat)
    requires z > 0
    ensures Zeros(z) == Zeros(z - 1) + "0" && Zeros(z)[..|Zeros(z)| - 1] == Zeros(z - 1)
  {
    if z > 1 {
      LastZero(z - 1);
    }
  }

  lemma {:induction false} DigitsAreDecimal(s: string, n: nat, max: nat) returns (z: nat)
    requires s != "" && DigitsValue(s, max) == Ok(n)
    ensures n <= max && s == Zeros(z) + Decimal(n)
    decreases |s|
  {
    var t, c := s[..|s| - 1], s[|s| - 1];
    assert s == t + [c];
    var v, d := DigitsValue(t, max).value, c as int - '0' as int;
    assert n == 10 * v + d && 0 <= d < 10;
    assert [c] == [DigitChar(d)];
    if t == "" {
      z := 0;
    } else {
      var z' := DigitsAreDecimal(t, v, max);
      if v == 0 {
        LastZero(z' + 1);
        z := z' + 1;
      } else {
        assert n / 10 == v && n % 10 == d;
        z := z';
      }
    }
  }

  /** A decimal text behind any number of zeros, perhaps with a plus sign in front. */
  function NumberText(plus: bool, z: nat, n: nat): string {
    (if plus then "+" else "") + (Zeros(z) + Decimal(n))
  }

  lemma TextParsed(plus: bool, z: nat, n: nat, max: nat)
    requires n <= max
    ensures ParseNumber(NumberText(plus, z, n), max) == Ok(n)
  {
    hide DigitsValue, Decimal, Zeros;
    DecimalValue(n, max);
    ZerosValue(z, Decimal(n), n, max);
    var digits := Zeros(z) + Decimal(n);
    assert '0' <= Decimal(n)[0];
    DigitFirst(z, Decimal(n));
    assert ("+" + digits)[1..] == digits && "" + digits == digits;
  }

  /** The texts that are read as `n`: its decimal text, perhaps with zeros before it, perhaps with a plus sign before
      those, if `n` does not exceed the greatest value. */
  lemma ParsedIff(s: string, n: nat, max: nat)
    ensures ParseNumber(s, max) == Ok(n) <==> n <= max && exists plus: bool, z: nat :: s == NumberText(plus, z, n)
  {
    hide DigitsValue, Decimal, Zeros;
    if ParseNumber(s, max) == Ok(n) {
      var plus := s[0] == '+';
      var digits := if plus then s[1..] else s;
      var z := DigitsAreDecimal(digits, n, max);
      assert s == (if plus then "+" else "") + digits;
      assert s == NumberText(plus, z, n);
    }
    if n <= max && exists plus: bool, z: nat :: s == NumberText(plus, z, n) {
      var plus: bool, z: nat :| s == NumberText(plus, z, n);
      TextParsed(plus, z, n, max);
    }
  }

  lemma DigitFirst(z: nat, s: string)
    requires s != "" && s[0] != '+'
    ensures (Zeros(z) + s)[0] != '+'
  {
  }

  // ----- joining and splitting

  function Join(parts: seq<string>): string {
    if parts == [] then ""
    else if |parts| == 1 then parts[0]
    else parts[0] + " " + Join(parts[1..])
  }

  /** The pieces between the spaces; a string without spaces is one piece, even when empty. */
  function Split(s: string): (parts: seq<string>)
    ensures |parts| >= 1
  {
    if s == "" then [""]
    else
      var rest := Split(s[1..]);
      if s[0] == ' ' then [""] + rest else [[s[0]] + rest[0]] + rest[1..]
  }

  predicate NoSpace(s: string) {
    forall i :: 0 <= i < |s| ==> s[i] != ' '
  }

  lemma {:induction false} SplitFirst(head: string, rest: string)
    requires NoSpace(head)
    ensures Split(head + " " + rest) == [head] + Split(rest)
  {
    var s := head + " " + rest;
    if head == "" {
      assert s[1..] == rest;
    } else {
      assert s[1..] == head[1..] + " " + rest;
      SplitFirst(head[1..], rest);
      assert s[0] == head[0] != ' ' && [head[0]] + head[1..] == head;
      assert ([head[1..]] + Split(rest))[1..] == Split(rest);
    }
  }

  lemma {:induction false} SplitWord(word: string)
    requires NoSpace(word)
    ensures Split(word) == [word]
  {
    if word != "" {
      SplitWord(word[1..]);
      assert word[0] != ' ' && [word[0]] + word[1..] == word;
    }
  }

  lemma {:induction false} SplitUndoesJoin(parts: seq<string>)
    requires parts != [] && forall i :: 0 <= i < |parts| ==> NoSpace(parts[i])
    ensures Split(Join(parts)) == parts
  {
    if |parts| == 1 {
      SplitWord(parts[0]);
    } else {
      SplitFirst(parts[0], Join(parts[1..]));
      SplitUndoesJoin(parts[1..]);
    }
  }

  /** Joining what splitting gives is the text again, and no piece has a space in it. */
  lemma {:induction false} JoinUndoesSplit(s: string)
    ensures Join(Split(s)) == s
    ensures forall i :: 0 <= i < |Split(s)| ==> forall k :: 0 <= k < |Split(s)[i]| ==> Split(s)[i][k] != ' '
  {
    if s != "" {
      var rest := Split(s[1..]);
      JoinUndoesSplit(s[1..]);
      if s[0] == ' ' {
        assert ([""] + rest)[1..] == rest;
        assert s == "" + " " + s[1..];
      } else {
        assert ([[s[0]] + rest[0]] + rest[1..])[1..] == rest[1..];
        assert s == [s[0]] + s[1..];
      }
    }
  }

  // ----- lists

  function ToList(value: Option<seq<nat>>): string {
    match value
    case None => NO_LIST
    case Some(list) => Join(seq(|list|, i requires 0 <= i < |list| => Decimal(list[i])))
  }

  /** The numbers of the first `n` parts, or nothing if one of them is malformed. */
  /** The text of a list: a word for none, the decimal text of a single number, and a space between two parts. */
  lemma ListTexts(n: nat, a: seq<nat>, b: seq<nat>)
    ensures ToList(None) == "NONE" && ToList(Some([])) == ""
    ensures ToList(Some([n])) == Decimal(n)
    ensures a != [] && b != [] ==> ToList(Some(a + b)) == ToList(Some(a)) + " " + ToList(Some(b))
  {
    hide Decimal, Join;
    NoParts();
    EmptyText();
    assert seq(1, i requires 0 <= i < 1 => Decimal([n][i])) == [Decimal(n)];
    OnePart(Decimal(n));
    if a != [] && b != [] {
      var pa := seq(|a|, i requires 0 <= i < |a| => Decimal(a[i]));
      var pb := seq(|b|, i requires 0 <= i < |b| => Decimal(b[i]));
      assert seq(|a + b|, i requires 0 <= i < |a + b| => Decimal((a + b)[i])) == pa + pb;
      JoinParts(pa, pb);
    }
  }

  lemma EmptyText()
    ensures ToList(Some([])) == ""
  {
  }

  lemma NoParts()
    ensures Join([]) == ""
  {
  }

  lemma OnePart(s: string)
    ensures Join([s]) == s
  {
  }

  lemma {:induction false} JoinParts(a: seq<string>, b: seq<string>)
    requires a != [] && b != []
    ensures Join(a + b) == Join(a) + " " + Join(b)
    decreases |a|
  {
    assert (a + b)[1..] == a[1..] + b;
    if |a| > 1 {
      JoinParts(a[1..], b);
    }
  }

  function ParseAll(parts: seq<string>, n: nat, max: nat): Parsed<seq<nat>>
    requires n <= |parts|
  {
    if n == 0 then Ok([])
    else
      match ParseAll(parts, n - 1, max)
      case Malformed => Malformed
      case Ok(list) =>
        match ParseNumber(parts[n - 1], max)
        case Malformed => Malformed
        case Ok(v) => Ok(list + [v])
  }

  function FromText(s: string, max: nat): Parsed<Option<seq<nat>>> {
    if s == NO_LIST then Ok(None)
    else
      match ParseAll(Split(s), |Split(s)|, max)
      case Malformed => Malformed
      case Ok(list) => Ok(Some(list))
  }

  lemma {:induction false} ParseAllIff(parts: seq<string>, n: nat, list: seq<nat>, max: nat)
    requires n <= |parts|
    ensures ParseAll(parts, n, max) == Ok(list)
       <==> |list| == n && forall i :: 0 <= i < n ==> ParseNumber(parts[i], max) == Ok(list[i])
  {
    hide ParseNumber;
    if n > 0 {
      if |list| == n {
        ParseAllIff(parts, n - 1, list[..n - 1], max);
        assert list == list[..n - 1] + [list[n - 1]];
      }
      if ParseAll(parts, n, max) == Ok(list) {
        var before := ParseAll(parts, n - 1, max).value;
        ParseAllIff(parts, n - 1, before, max);
        assert list[..n - 1] == before;
      }
    }
  }

  /** A text is read as a list exactly when it is not the word for none and its pieces are read as the numbers. */
  lemma ReadAsIff(s: string, list: seq<nat>, max: nat)
    ensures FromText(s, max) == Ok(None) <==> s == "NONE"
    ensures FromText(s, max) == Ok(Some(list))
       <==> && s != "NONE" && |Split(s)| == |list|
            && forall i :: 0 <= i < |list| ==> ParseNumber(Split(s)[i], max) == Ok(list[i])
  {
    hide ParseNumber, ParseAll, Split;
    ParseAllIff(Split(s), |Split(s)|, list, max);
  }

  lemma {:induction false} ParseFails(parts: seq<string>, k: nat, n: nat, max: nat)
    requires k <= n <= |parts| && ParseAll(parts, k, max) == Malformed
    ensures ParseAll(parts, n, max) == Malformed
  {
    if k < n {
      ParseFails(parts, k, n - 1, max);
    }
  }

  /** Reads a list back: piece by piece, up to the first malformed one. */
  method FromList(s: string, max: nat) returns (r: Parsed<Option<seq<nat>>>)
    ensures r == FromText(s, max)
  {
    hide ParseNumber;
    if s == NO_LIST {
      return Ok(None);
    }
    var v := Split(s);
    var ints := [];
    for i := 0 to |v|
      invariant ParseAll(v, i, max) == Ok(ints)
    {
      var n := ParseNumber(v[i], max);
      if n.Malformed? {
        ParseFails(v, i + 1, |v|, max);
        return Malformed;
      }
      ints := ints + [n.value];
    }
    r := Ok(Some(ints));
  }

  lemma {:induction false} ParseAllPrinted(list: seq<nat>, parts: seq<string>, n: nat, max: nat)
    requires |parts| == |list| && forall i :: 0 <= i < |list| ==> parts[i] == Decimal(list[i]) && list[i] <= max
    requires n <= |list|
    ensures ParseAll(parts, n, max) == Ok(list[..n])
  {
    hide ParseNumber, Decimal;
    if n > 0 {
      ParseAllPrinted(list, parts, n - 1, max);
      NumberRoundTrip(list[n - 1], max);
      assert list[..n] == list[..n - 1] + [list[n - 1]];
    }
  }

  lemma JoinStartsWith(parts: seq<string>)
    requires parts != [] && parts[0] != ""
    ensures Join(parts) != "" && Join(parts)[0] == parts[0][0]
  {
  }

  /** Printing a list and reading it back gives the list, exactly unless it is the empty list. */
  lemma ListRoundTripIff(value: Option<seq<nat>>, max: nat)
    requires value.Some? ==> forall i :: 0 <= i < |value.value| ==> value.value[i] <= max
    ensures FromText(ToList(value), max) == Ok(value) <==> value != Some([])
  {
    hide ParseNumber, Decimal, Join;
    if value.Some? {
      var list := value.value;
      var parts := seq(|list|, i requires 0 <= i < |list| => Decimal(list[i]));
      if list == [] {
        EmptyListText(max);
      } else {
        assert '0' <= parts[0][0] <= '9';
        JoinStartsWith(parts);
        assert Join(parts) != NO_LIST;
        SplitUndoesJoin(parts);
        ParseAllPrinted(list, parts, |list|, max);
        assert list[..|list|] == list;
      }
    }
  }

  lemma EmptyListText(max: nat)
    ensures FromText(ToList(Some([])), max) == Malformed
  {
    assert ToList(Some([])) == "";
    assert Split("") == [""];
    assert ParseNumber("", max) == Malformed;
    assert ParseAll([""], 1, max) == Malformed;
  }
}
