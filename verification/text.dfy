/**
 * The two string primitives the modelled code leans on: Go's `strconv.Atoi`
 * (slug-or-id dispatch, query parameters) and PostgreSQL's `trim(text)`
 * (blank edits of threads and posts). Strings are sequences of characters.
 */
module Text {
  import opened Wrappers

  /** Range of Go's `int` on the 64-bit targets the service is built for. */
  const Int64Min: int := -0x8000_0000_0000_0000
  const Int64Max: int := 0x7fff_ffff_ffff_ffff

  predicate IsDigit(c: char) {
    '0' <= c <= '9'
  }

  predicate AllDigits(s: string) {
    forall i :: 0 <= i < |s| ==> IsDigit(s[i])
  }

  /** The value of a run of decimal digits, read most significant first. */
  function DigitsValue(s: string): nat
    requires AllDigits(s)
  {
    if s == [] then 0 else DigitsValue(s[..|s| - 1]) * 10 + (s[|s| - 1] as int - '0' as int)
  }

  /**
   * strconv.Atoi: an optional '+' or '-', then at least one ASCII digit, with the
   * value inside the int64 range; anything else (the empty string, "true",
   * spaces, underscores, overflow) is a syntax or range error, here None.
   */
  function Atoi(s: string): (r: Option<int>)
    ensures r.Some? ==> Int64Min <= r.value <= Int64Max
    ensures r.Some? ==> |s| > 0 && IsDigit(s[|s| - 1])
    ensures r.Some? && r.value < 0 ==> s[0] == '-'
  {
    if |s| > 0 && (s[0] == '+' || s[0] == '-') then
      var body := s[1..];
      if body == [] || !AllDigits(body) then None
      else
        var d: int := DigitsValue(body);
        var v := if s[0] == '-' then -d else d;
        if Int64Min <= v <= Int64Max then Some(v) else None
    else if s == [] || !AllDigits(s) then None
    else if DigitsValue(s) <= Int64Max then Some(DigitsValue(s))
    else None
  }

  /** A reference rendering of integers (Go's strconv.Itoa), used to state what Atoi accepts. */
  function NatToDigits(n: nat): (r: string)
    ensures |r| > 0 && AllDigits(r)
  {
    if n < 10 then [('0' as int + n) as char]
    else NatToDigits(n / 10) + [('0' as int + n % 10) as char]
  }

  function Itoa(n: int): string {
    if n < 0 then "-" + NatToDigits(-n) else NatToDigits(n)
  }

  lemma {:induction false} DigitsRoundTrip(n: nat)
    ensures DigitsValue(NatToDigits(n)) == n
  {
    if n >= 10 {
      var d := NatToDigits(n);
      assert d[..|d| - 1] == NatToDigits(n / 10);
      DigitsRoundTrip(n / 10);
    }
  }

  /** Every int64 written in decimal parses back to itself. */
  lemma AtoiItoa(n: int)
    requires Int64Min <= n <= Int64Max
    ensures Atoi(Itoa(n)) == Some(n)
  {
    var s := Itoa(n);
    if n < 0 {
      var d := NatToDigits(-n);
      DigitsRoundTrip(-n);
      assert s == "-" + d && s[0] == '-' && s[1..] == d;
    } else {
      var d := NatToDigits(n);
      DigitsRoundTrip(n);
      assert s == d && IsDigit(s[0]);
    }
  }

  /** True when every character is a space, the condition `trim(x) = ''` tests. */
  predicate IsBlank(s: string) {
    forall i :: 0 <= i < |s| ==> s[i] == ' '
  }

  function TrimLeft(s: string): (r: string)
    ensures |r| <= |s| && r == s[|s| - |r|..]
    ensures r == [] || r[0] != ' '
    ensures forall i :: 0 <= i < |s| - |r| ==> s[i] == ' '
  {
    if |s| > 0 && s[0] == ' ' then TrimLeft(s[1..]) else s
  }

  function TrimRight(s: string): (r: string)
    ensures |r| <= |s| && r == s[..|r|]
    ensures r == [] || r[|r| - 1] != ' '
    ensures forall i :: |r| <= i < |s| ==> s[i] == ' '
  {
    if |s| > 0 && s[|s| - 1] == ' ' then TrimRight(s[..|s| - 1]) else s
  }

  /**
   * PostgreSQL `trim(s)` with no character list: removes the spaces (only ' ')
   * at both ends. The result is the slice of `s` between its first and last
   * non-space characters, and is empty exactly for a blank string.
   */
  function Trim(s: string): (r: string)
    ensures r == [] || (r[0] != ' ' && r[|r| - 1] != ' ')
    ensures r == [] <==> IsBlank(s)
  {
    var l := TrimLeft(s);
    TrimEnds(l);
    TrimBlank(s, l);
    TrimRight(l)
  }

  lemma TrimEnds(l: string)
    requires l == [] || l[0] != ' '
    ensures var r := TrimRight(l); r == [] || (r[0] != ' ' && r[|r| - 1] != ' ')
  {
    var r := TrimRight(l);
    if r != [] {
      assert r[0] == l[..|r|][0];
    }
  }

  lemma TrimBlank(s: string, l: string)
    requires l == TrimLeft(s)
    ensures TrimRight(l) == [] <==> IsBlank(s)
  {
    // A first character that is not a space survives TrimRight.
    assert l != [] ==> l[0] != ' ';
  }

  /** Trimming an already trimmed string changes nothing. */
  lemma TrimIdempotent(s: string)
    ensures Trim(Trim(s)) == Trim(s)
  {
    var t := Trim(s);
    assert TrimLeft(t) == t;
    assert TrimRight(t) == t;
  }

  /** Surrounding a string with spaces does not change its trimmed form. */
  lemma TrimPadded(s: string)
    ensures Trim(" " + s + " ") == Trim(s)
  {
    var padded := " " + s + " ";
    assert TrimLeft(padded) == TrimLeft(s + " ") by {
      assert padded == [' '] + (s + " ");
      TrimLeftSpace(s + " ");
    }
    TrimLeftAppend(s, " ");
    TrimRightSpace(TrimLeft(s));
  }

  lemma TrimLeftSpace(s: string)
    ensures TrimLeft([' '] + s) == TrimLeft(s)
  {
    assert ([' '] + s)[1..] == s;
  }

  lemma {:induction false} TrimLeftAppend(s: string, tail: string)
    ensures !IsBlank(s) ==> TrimLeft(s + tail) == TrimLeft(s) + tail
    ensures IsBlank(s) ==> TrimLeft(s + tail) == TrimLeft(tail)
  {
    if s == [] {
      assert s + tail == tail;
    } else if s[0] == ' ' {
      assert (s + tail)[1..] == s[1..] + tail;
      TrimLeftAppend(s[1..], tail);
      BlankAfterSpace(s);
    } else {
      assert (s + tail)[0] == s[0];
    }
  }

  lemma BlankAfterSpace(s: string)
    requires s != [] && s[0] == ' '
    ensures IsBlank(s) <==> IsBlank(s[1..])
  {
    if IsBlank(s[1..]) {
      forall i | 0 < i < |s| ensures s[i] == ' ' {
        assert s[i] == s[1..][i - 1];
      }
    }
  }

  lemma TrimRightSpace(s: string)
    ensures TrimRight(s + " ") == TrimRight(s)
  {
    assert (s + " ")[..|s|] == s;
  }
}
