/** The parts of Go's `strings` and `strconv` packages that the puzzle
    solvers lean on, defined directly on strings of characters. */
module GoStrings {
  import opened Results

  // ---------------------------------------------------------------------
  // strings.Index

  /** `sep` occurs in `s` starting at position `k`. */
  predicate OccursAt(s: string, sep: string, k: int) {
    0 <= k && k + |sep| <= |s| && s[k..k + |sep|] == sep
  }

  /** First occurrence of `sep` in `s` at or after `start`, or -1. */
  function IndexFrom(s: string, sep: string, start: nat): (r: int)
    ensures r == -1 || start <= r <= |s| - |sep|
    decreases |s| + 1 - start
  {
    if start + |sep| > |s| then -1
    else if s[start..start + |sep|] == sep then start
    else IndexFrom(s, sep, start + 1)
  }

  /** IndexFrom finds an occurrence at or after `start` and none before it,
      or reports -1 when there is none at all from `start` on. */
  lemma {:induction false} IndexFromSpec(s: string, sep: string, start: nat)
    ensures IndexFrom(s, sep, start) == -1 || OccursAt(s, sep, IndexFrom(s, sep, start))
    ensures forall k :: start <= k && (IndexFrom(s, sep, start) == -1 || k < IndexFrom(s, sep, start)) ==>
      !OccursAt(s, sep, k)
    decreases |s| + 1 - start
  {
    if start + |sep| <= |s| && s[start..start + |sep|] != sep {
      IndexFromSpec(s, sep, start + 1);
    }
  }

  /** strings.Index: the first position of `sep` in `s`, or -1 when it is absent. */
  function Index(s: string, sep: string): (r: int)
    ensures r == -1 || 0 <= r <= |s| - |sep|
  {
    IndexFrom(s, sep, 0)
  }

  /** Index finds the first occurrence, and -1 means there is none. */
  lemma IndexSpec(s: string, sep: string)
    ensures Index(s, sep) == -1 || OccursAt(s, sep, Index(s, sep))
    ensures forall k :: 0 <= k && (Index(s, sep) == -1 || k < Index(s, sep)) ==> !OccursAt(s, sep, k)
  {
    IndexFromSpec(s, sep, 0);
  }

  // ---------------------------------------------------------------------
  // strings.Split and strings.Join

  /** strings.Split for a non-empty separator: the pieces between the
      non-overlapping occurrences of `sep`, found from left to right. */
  function Split(s: string, sep: string): (r: seq<string>)
    requires |sep| > 0
    ensures |r| >= 1
    decreases |s|
  {
    var i := Index(s, sep);
    if i < 0 then [s] else [s[..i]] + Split(s[i + |sep|..], sep)
  }

  /** strings.Join. */
  function Join(parts: seq<string>, sep: string): string {
    if |parts| == 0 then ""
    else if |parts| == 1 then parts[0]
    else parts[0] + sep + Join(parts[1..], sep)
  }

  /** Joining the pieces back with the separator gives the original text. */
  lemma {:induction false} SplitJoin(s: string, sep: string)
    requires |sep| > 0
    ensures Join(Split(s, sep), sep) == s
    decreases |s|
  {
    var i := Index(s, sep);
    IndexSpec(s, sep);
    if i >= 0 {
      var rest := s[i + |sep|..];
      assert Join(Split(s, sep), sep) == s[..i] + sep + Join(Split(rest, sep), sep) by {
        var parts := Split(s, sep);
        assert parts == [s[..i]] + Split(rest, sep);
        assert parts[1..] == Split(rest, sep);
      }
      SplitJoin(rest, sep);
      assert s == s[..i] + sep + rest by {
        assert s == s[..i] + s[i..i + |sep|] + rest;
      }
    }
  }

  /** No piece produced by Split contains the separator. */
  lemma {:induction false} SplitPiecesAreFree(s: string, sep: string)
    requires |sep| > 0
    ensures forall n, k :: 0 <= n < |Split(s, sep)| ==> !OccursAt(Split(s, sep)[n], sep, k)
    decreases |s|
  {
    var i := Index(s, sep);
    IndexSpec(s, sep);
    if i >= 0 {
      var rest := s[i + |sep|..];
      SplitPiecesAreFree(rest, sep);
      NoOccurrenceBefore(s, sep, i);
    }
  }

  /** The first piece of Split ends at the first occurrence of `sep`, and
      the other pieces are the split of what follows that occurrence; there
      is a single piece, the whole text, exactly when `sep` does not occur. */
  lemma SplitFirstPiece(s: string, sep: string)
    requires |sep| > 0
    ensures |Split(s, sep)| == 1 <==> forall k :: !OccursAt(s, sep, k)
    ensures |Split(s, sep)| == 1 ==> Split(s, sep)[0] == s
    ensures |Split(s, sep)| > 1 ==> OccursAt(s, sep, |Split(s, sep)[0]|)
    ensures forall k :: 0 <= k < |Split(s, sep)[0]| ==> !OccursAt(s, sep, k)
    ensures |Split(s, sep)| > 1 ==>
      Split(s, sep)[1..] == Split(s[|Split(s, sep)[0]| + |sep|..], sep)
  {
    var i := Index(s, sep);
    IndexSpec(s, sep);
    var pieces := Split(s, sep);
    if i >= 0 {
      var rest := Split(s[i + |sep|..], sep);
      assert pieces == [s[..i]] + rest;
      assert pieces[0] == s[..i] && pieces[1..] == rest;
    } else {
      assert pieces == [s];
    }
  }

  // ---------------------------------------------------------------------
  // strings.Cut and strings.TrimPrefix

  /** The text before a position that no occurrence starts before holds no occurrence. */
  lemma NoOccurrenceBefore(s: string, sep: string, i: int)
    requires |sep| > 0 && 0 <= i <= |s|
    requires forall k :: 0 <= k < i ==> !OccursAt(s, sep, k)
    ensures forall k :: !OccursAt(s[..i], sep, k)
  {
    forall k | OccursAt(s[..i], sep, k)
      ensures false
    {
      assert s[..i][k..k + |sep|] == s[k..k + |sep|];
      assert OccursAt(s, sep, k);
    }
  }

  /** strings.Cut: the text before and after the first `sep`, and whether
      `sep` was found. */
  function Cut(s: string, sep: string): (r: (string, string, bool))
    ensures r.2 ==> s == r.0 + sep + r.1
    ensures r.2 ==> forall k :: 0 <= k < |r.0| ==> !OccursAt(s, sep, k)
    ensures r.2 && |sep| > 0 ==> forall k :: !OccursAt(r.0, sep, k)
    ensures !r.2 ==> r.0 == s && r.1 == "" && forall k :: !OccursAt(s, sep, k)
  {
    var i := Index(s, sep);
    IndexSpec(s, sep);
    if i >= 0 then
      assert s == s[..i] + s[i..i + |sep|] + s[i + |sep|..];
      assert |sep| > 0 ==> forall k :: !OccursAt(s[..i], sep, k) by {
        if |sep| > 0 { NoOccurrenceBefore(s, sep, i); }
      }
      (s[..i], s[i + |sep|..], true)
    else (s, "", false)
  }

  /** strings.TrimPrefix: `s` without `prefix` if it starts with it, else `s`. */
  function TrimPrefix(s: string, prefix: string): string {
    if prefix <= s then s[|prefix|..] else s
  }

  /** TrimPrefix removes the prefix when it is there and nothing otherwise. */
  lemma TrimPrefixSpec(s: string, prefix: string)
    ensures prefix <= s ==> prefix + TrimPrefix(s, prefix) == s
    ensures !(prefix <= s) ==> TrimPrefix(s, prefix) == s
  {
    if prefix <= s {
      assert s == s[..|prefix|] + s[|prefix|..];
    }
  }

  /** Trimming a prefix off text that starts with it leaves the rest. */
  lemma TrimPrefixOf(prefix: string, rest: string)
    ensures TrimPrefix(prefix + rest, prefix) == rest
  {
    assert (prefix + rest)[..|prefix|] == prefix;
    assert (prefix + rest)[|prefix|..] == rest;
  }

  // ---------------------------------------------------------------------
  // strings.TrimSpace

  /** unicode.IsSpace: the ASCII white space characters, NEL, NBSP and the
      other code points with the White_Space property. */
  predicate IsSpace(c: char) {
    c == '\t' || c == '\n' || c == '\U{0B}' || c == '\U{0C}' || c == '\r' || c == ' '
    || c == '\U{85}' || c == '\U{A0}' || c == '\U{1680}'
    || ('\U{2000}' <= c <= '\U{200A}')
    || c == '\U{2028}' || c == '\U{2029}' || c == '\U{202F}' || c == '\U{205F}' || c == '\U{3000}'
  }

  predicate AllSpace(s: string) {
    forall i :: 0 <= i < |s| ==> IsSpace(s[i])
  }

  /** Drops leading white space. */
  function TrimLeft(s: string): (r: string)
    ensures |r| <= |s| && r == s[|s| - |r|..]
    ensures AllSpace(s[..|s| - |r|])
    ensures r == [] || !IsSpace(r[0])
  {
    if |s| > 0 && IsSpace(s[0]) then
      var r := TrimLeft(s[1..]);
      assert s[..|s| - |r|] == [s[0]] + s[1..][..|s| - 1 - |r|];
      r
    else s
  }

  /** Drops trailing white space. */
  function TrimRight(s: string): (r: string)
    ensures |r| <= |s| && r == s[..|r|]
    ensures AllSpace(s[|r|..])
    ensures r == [] || !IsSpace(r[|r| - 1])
  {
    if |s| > 0 && IsSpace(s[|s| - 1]) then
      var r := TrimRight(s[..|s| - 1]);
      assert s[|r|..] == s[..|s| - 1][|r|..] + [s[|s| - 1]];
      r
    else s
  }

  /** strings.TrimSpace. */
  function TrimSpace(s: string): (r: string) {
    TrimRight(TrimLeft(s))
  }

  /** A string trims to nothing exactly when every character of it is
      white space. */
  lemma TrimSpaceEmpty(s: string)
    ensures TrimSpace(s) == "" <==> AllSpace(s)
  {
    var t := TrimLeft(s);
    if TrimSpace(s) == "" {
      assert AllSpace(t) by { assert t[0..] == t; }
      assert s == s[..|s| - |t|] + t;
    }
  }

  // ---------------------------------------------------------------------
  // strconv.Atoi and strconv.Itoa

  predicate IsDigit(c: char) {
    '0' <= c <= '9'
  }

  predicate AllDigits(s: string) {
    forall i :: 0 <= i < |s| ==> IsDigit(s[i])
  }

  /** The decimal value of a string of digits. */
  function DigitsValue(d: string): nat
    requires AllDigits(d)
  {
    if |d| == 0 then 0
    else DigitsValue(d[..|d| - 1]) * 10 + (d[|d| - 1] as int - '0' as int)
  }

  /** The syntax strconv.Atoi accepts: an optional sign, then at least one
      decimal digit. */
  predicate IsDecimal(s: string) {
    if |s| > 0 && (s[0] == '+' || s[0] == '-') then |s| > 1 && AllDigits(s[1..])
    else |s| > 0 && AllDigits(s)
  }

  /** strconv.Atoi, without its range check. */
  function Atoi(s: string): (r: Option<int>)
    ensures r.Some? <==> IsDecimal(s)
    ensures r.Some? && s[0] == '-' ==> r.value <= 0
    ensures r.Some? && s[0] != '-' ==> r.value >= 0
  {
    if !IsDecimal(s) then None
    else if s[0] == '-' then Some(-(DigitsValue(s[1..]) as int))
    else if s[0] == '+' then Some(DigitsValue(s[1..]))
    else Some(DigitsValue(s))
  }

  function DigitChar(d: nat): (c: char)
    requires d < 10
    ensures IsDigit(c) && c as int - '0' as int == d
  {
    ('0' as int + d) as char
  }

  /** The shortest decimal spelling of a natural number. */
  function NatDigits(n: nat): (d: string)
    ensures |d| > 0 && AllDigits(d)
    ensures DigitsValue(d) == n
  {
    if n < 10 then [DigitChar(n)]
    else
      var d := NatDigits(n / 10) + [DigitChar(n % 10)];
      assert d[..|d| - 1] == NatDigits(n / 10);
      d
  }

  /** strconv.Itoa. */
  function Itoa(n: int): (s: string)
    ensures |s| > 0
    ensures forall i :: 0 <= i < |s| ==> s[i] != ' '
  {
    if n < 0 then "-" + NatDigits(-n) else NatDigits(n)
  }

  /** Atoi reads back what Itoa writes. */
  lemma AtoiItoa(n: int)
    ensures Atoi(Itoa(n)) == Some(n)
  {
    if n < 0 {
      assert Itoa(n)[1..] == NatDigits(-n);
    }
  }
}
