/**
 * The string handling the server relies on: `std::getline` tokenising,
 * `std::to_string` and `std::stoi` on `int`, the byte-wise lexicographic
 * order of `std::string` (the iteration order of a `std::set<std::string>`),
 * and the ascending-key iteration order of a `std::map<int, _>`.
 */
module Text {
  import opened Options

  // ---------------------------------------------------------------------
  // Tokenising with std::getline

  /** The position of the first `d` in `s`, or `|s|` when there is none. */
  function IndexOf(s: string, d: char): (k: nat)
    ensures k <= |s|
    ensures k < |s| ==> s[k] == d
    ensures forall j :: 0 <= j < k ==> s[j] != d
  {
    if s == [] then 0 else if s[0] == d then 0 else 1 + IndexOf(s[1..], d)
  }

  /**
   * The tokens `while (std::getline(stream, token, d))` produces: each read
   * takes everything up to the next `d` (dropping the `d`); a read that finds
   * the stream already exhausted fails. So an empty string gives no tokens, a
   * trailing `d` gives no trailing empty token, and empty tokens between two
   * delimiters are kept.
   */
  function Tokens(s: string, d: char): seq<string>
    decreases |s|
  {
    if s == [] then []
    else
      var k := IndexOf(s, d);
      if k == |s| then [s] else [s[..k]] + Tokens(s[k + 1..], d)
  }

  /** The token running from `start` up to a delimiter at `i` comes off the front of the tokens. */
  lemma TokensAtDelimiter(s: string, start: nat, i: nat, d: char)
    requires start <= i < |s| && s[i] == d
    requires d !in s[start..i]
    ensures Tokens(s[start..], d) == [s[start..i]] + Tokens(s[i + 1..], d)
  {
    var u := s[start..];
    var k := i - start;
    assert u[..k] == s[start..i] && u[k + 1..] == s[i + 1..] && u[k] == d;
    IndexOfFirst(u, d, k);
  }

  /** The first `d` of `u` is the one at `k` when none comes before it. */
  lemma IndexOfFirst(u: string, d: char, k: nat)
    requires k < |u| && u[k] == d && d !in u[..k]
    ensures IndexOf(u, d) == k
  {
    forall j | 0 <= j < k ensures u[j] != d {
      assert u[..k][j] == u[j];
    }
  }

  /** A last token without a delimiter is the whole of the remaining tokens. */
  lemma TokensAtEnd(s: string, start: nat, d: char)
    requires start <= |s|
    requires d !in s[start..]
    ensures Tokens(s[start..], d) == if start == |s| then [] else [s[start..]]
  {
    var u := s[start..];
    assert IndexOf(u, d) == |u|;
  }

  /** The invariant of `split` survives a delimiter: the finished token joins the list. */
  lemma SplitAtDelimiter(s: string, d: char, tokens: seq<string>, start: nat, i: nat)
    requires start <= i < |s| && s[i] == d && d !in s[start..i]
    requires tokens + Tokens(s[start..], d) == Tokens(s, d)
    ensures (tokens + [s[start..i]]) + Tokens(s[i + 1..], d) == Tokens(s, d)
  {
    TokensAtDelimiter(s, start, i, d);
  }

  /** The invariant of `split` survives any other character: the token grows by it. */
  lemma SplitInToken(s: string, d: char, start: nat, i: nat)
    requires start <= i < |s| && s[i] != d && d !in s[start..i]
    ensures s[start..i + 1] == s[start..i] + [s[i]] && d !in s[start..i + 1]
  {
    assert s[start..i + 1] == s[start..i] + [s[i]];
  }

  /** `split`: reads tokens with `std::getline` until the stream is exhausted. */
  /** What `split` has read so far: the finished tokens and the current one. */
  ghost predicate SplitState(s: string, d: char, tokens: seq<string>, token: string, i: nat)
  {
    i <= |s| && |token| <= i && token == s[i - |token|..i] && d !in token &&
    tokens + Tokens(s[i - |token|..], d) == Tokens(s, d)
  }

  lemma SplitStep(s: string, d: char, tokens: seq<string>, token: string, i: nat)
    requires i < |s| && SplitState(s, d, tokens, token, i)
    ensures s[i] == d ==> SplitState(s, d, tokens + [token], "", i + 1)
    ensures s[i] != d ==> SplitState(s, d, tokens, token + [s[i]], i + 1)
  {
    var start := i - |token|;
    if s[i] == d {
      SplitAtDelimiter(s, d, tokens, start, i);
      assert s[i + 1..i + 1] == "";
    } else {
      SplitInToken(s, d, start, i);
    }
  }

  lemma SplitDone(s: string, d: char, tokens: seq<string>, token: string)
    requires SplitState(s, d, tokens, token, |s|)
    ensures (if token != "" then tokens + [token] else tokens) == Tokens(s, d)
  {
    var start := |s| - |token|;
    assert s[start..|s|] == s[start..];
    TokensAtEnd(s, start, d);
    if token == "" {
      assert Tokens(s[start..], d) == [];
      assert tokens + [] == tokens;
    } else {
      assert Tokens(s[start..], d) == [token];
    }
  }

  /** `split`: reads tokens with `std::getline` until the stream is exhausted. */
  method Split(s: string, d: char) returns (tokens: seq<string>)
    ensures tokens == Tokens(s, d)
  {
    tokens := [];
    var token := "";
    var i := 0;
    assert s[0..] == s && s[0..0] == "";
    while i < |s|
      invariant SplitState(s, d, tokens, token, i)
    {
      SplitStep(s, d, tokens, token, i);
      if s[i] == d {
        tokens := tokens + [token];
        token := "";
      } else {
        token := token + [s[i]];
      }
      i := i + 1;
    }
    SplitDone(s, d, tokens, token);
    if token != "" {
      tokens := tokens + [token];
    }
  }

  /** The tokens joined back together, with `sep` between neighbours. */
  function Join(ts: seq<string>, sep: char): string
  {
    if ts == [] then []
    else if |ts| == 1 then ts[0]
    else ts[0] + [sep] + Join(ts[1..], sep)
  }

  predicate EndsWith(s: string, d: char)
  {
    |s| > 0 && s[|s| - 1] == d
  }

  /** No token contains the delimiter. */
  lemma {:induction false} TokensHaveNoDelimiter(s: string, d: char)
    ensures forall t :: t in Tokens(s, d) ==> d !in t
    decreases |s|
  {
    if s != [] {
      var k := IndexOf(s, d);
      if k < |s| {
        TokensHaveNoDelimiter(s[k + 1..], d);
        assert d !in s[..k];
      }
    }
  }

  lemma JoinCons(t: string, ts: seq<string>, d: char)
    requires ts != []
    ensures Join([t] + ts, d) == t + [d] + Join(ts, d)
  {
    assert ([t] + ts)[1..] == ts;
  }

  /** Concatenation regrouped; stated once so that long chains of sends need not rediscover it. */
  lemma SeqAssoc<T>(a: seq<T>, b: seq<T>, c: seq<T>)
    ensures a + b + c == a + (b + c)
  {
  }

  /** Putting the delimiters back between the tokens rebuilds the string. */
  lemma {:induction false} TokensRebuild(s: string, d: char)
    ensures Join(Tokens(s, d), d) + (if EndsWith(s, d) then [d] else []) == s
    decreases |s|
  {
    if s != [] {
      var k := IndexOf(s, d);
      if k < |s| {
        var head, rest := s[..k], s[k + 1..];
        assert s == head + [d] + rest;
        assert Tokens(s, d) == [head] + Tokens(rest, d);
        if rest == [] {
          assert Join(Tokens(s, d), d) == head;
        } else {
          TokensRebuild(rest, d);
          var tail := Tokens(rest, d);
          assert tail != [];
          JoinCons(head, tail, d);
          assert EndsWith(s, d) == EndsWith(rest, d);
          var e := if EndsWith(s, d) then [d] else [];
          assert Join(tail, d) + e == rest;
          SeqAssoc(head + [d], Join(tail, d), e);
        }
      }
    }
  }

  /** The other direction: tokens without the delimiter, the last one non-empty, split back out of their join. */
  lemma {:induction false} TokensOfJoin(ts: seq<string>, d: char)
    requires forall t :: t in ts ==> d !in t
    requires ts != [] ==> ts[|ts| - 1] != []
    ensures Tokens(Join(ts, d), d) == ts
  {
    if |ts| == 1 {
      assert ts[0] in ts;
    } else if |ts| > 1 {
      var s := Join(ts, d);
      var t0 := ts[0];
      assert s == t0 + [d] + Join(ts[1..], d);
      IndexOfAfterToken(t0, d, Join(ts[1..], d));
      assert s[..|t0|] == t0;
      assert s[|t0| + 1..] == Join(ts[1..], d);
      TokensOfJoin(ts[1..], d);
      JoinNonEmpty(ts[1..], d);
    }
  }

  lemma IndexOfAfterToken(t: string, d: char, rest: string)
    requires d !in t
    ensures IndexOf(t + [d] + rest, d) == |t|
  {
    var s := t + [d] + rest;
    assert s[|t|] == d;
    assert forall j :: 0 <= j < |t| ==> s[j] == t[j] && t[j] in t;
  }

  lemma {:induction false} JoinNonEmpty(ts: seq<string>, d: char)
    requires ts != [] && ts[|ts| - 1] != []
    ensures Join(ts, d) != []
  {
    if |ts| > 1 {
      JoinNonEmpty(ts[1..], d);
    }
  }

  /** Each token followed by `d`: the `field;field;...;` shape of most payloads. */
  function Terminated(ts: seq<string>, d: char): string
  {
    if ts == [] then [] else ts[0] + [d] + Terminated(ts[1..], d)
  }

  /** A `d`-terminated list of tokens without `d` splits back into exactly those tokens. */
  lemma {:induction false} TokensOfTerminated(ts: seq<string>, d: char)
    requires forall t :: t in ts ==> d !in t
    ensures Tokens(Terminated(ts, d), d) == ts
  {
    if ts != [] {
      var rest := Terminated(ts[1..], d);
      assert ts[0] in ts;
      IndexOfAfterToken(ts[0], d, rest);
      var s := ts[0] + [d] + rest;
      assert s[..|ts[0]|] == ts[0];
      assert s[|ts[0]| + 1..] == rest;
      TokensOfTerminated(ts[1..], d);
    }
  }

  /** Appending a token to a join appends the separator and the token. */
  lemma {:induction false} JoinSnoc(ts: seq<string>, t: string, sep: char)
    requires ts != []
    ensures Join(ts + [t], sep) == Join(ts, sep) + [sep] + t
    decreases |ts|
  {
    if |ts| == 1 {
      assert ts + [t] == [ts[0], t];
    } else {
      assert (ts + [t])[1..] == ts[1..] + [t];
      JoinSnoc(ts[1..], t, sep);
      JoinCons(ts[0], ts[1..] + [t], sep);
      JoinCons(ts[0], ts[1..], sep);
    }
  }

  /** Appending a token to a terminated list appends the token and its terminator. */
  lemma {:induction false} TerminatedSnoc(ts: seq<string>, t: string, d: char)
    ensures Terminated(ts + [t], d) == Terminated(ts, d) + t + [d]
    decreases |ts|
  {
    if ts == [] {
      assert ([] + [t])[1..] == [];
    } else {
      assert (ts + [t])[1..] == ts[1..] + [t];
      TerminatedSnoc(ts[1..], t, d);
    }
  }

  // ---------------------------------------------------------------------
  // std::to_string and std::stoi on int

  const IntMin: int := -0x8000_0000
  const IntMax: int := 0x7fff_ffff

  predicate IsDigit(c: char)
  {
    '0' <= c <= '9'
  }

  function DigitChar(n: nat): (c: char)
    requires n < 10
    ensures IsDigit(c)
  {
    ('0' as int + n) as char
  }

  function DigitValue(c: char): (n: nat)
    requires IsDigit(c)
    ensures n < 10
  {
    c as int - '0' as int
  }

  /** Decimal digits of a natural number, most significant first, no leading zeros. */
  function NatToString(n: nat): (r: string)
    ensures |r| >= 1
    decreases n
  {
    if n < 10 then [DigitChar(n)] else NatToString(n / 10) + [DigitChar(n % 10)]
  }

  /** `std::to_string(int)`: a minus sign for negative values, then the decimal digits. */
  function IntToString(i: int): string
  {
    if i < 0 then "-" + NatToString(-i) else NatToString(i)
  }

  /** The white space `strtol` skips in the "C" locale. */
  predicate IsSpace(c: char)
  {
    c == ' ' || '\t' <= c <= '\r'
  }

  function SkipSpaces(s: string): (r: string)
    ensures |r| <= |s|
  {
    if s != [] && IsSpace(s[0]) then SkipSpaces(s[1..]) else s
  }

  /** The number of leading decimal digits. */
  function DigitPrefix(s: string): (n: nat)
    ensures n <= |s|
    ensures forall j :: 0 <= j < n ==> IsDigit(s[j])
    ensures n < |s| ==> !IsDigit(s[n])
  {
    if s != [] && IsDigit(s[0]) then 1 + DigitPrefix(s[1..]) else 0
  }

  /** The value of a string of decimal digits, most significant first. */
  function DigitsValue(s: string): nat
    requires forall j :: 0 <= j < |s| ==> IsDigit(s[j])
  {
    if s == [] then 0 else DigitsValue(s[..|s| - 1]) * 10 + DigitValue(s[|s| - 1])
  }

  /**
   * `std::stoi(s)`: leading white space, an optional sign, then a run of
   * decimal digits whose value must fit an `int`. Characters after the digits
   * are ignored. `None` stands for the exception `stoi` throws when there are
   * no digits (`invalid_argument`) or the value does not fit (`out_of_range`).
   */
  function Stoi(s: string): Option<int>
  {
    var t := SkipSpaces(s);
    var signed := |t| > 0 && (t[0] == '-' || t[0] == '+');
    var u := if signed then t[1..] else t;
    var n := DigitPrefix(u);
    if n == 0 then None
    else
      var v: int := if signed && t[0] == '-' then -(DigitsValue(u[..n]) as int) else DigitsValue(u[..n]);
      if IntMin <= v <= IntMax then Some(v) else None
  }

  lemma {:induction false} NatToStringDigits(n: nat)
    ensures forall j :: 0 <= j < |NatToString(n)| ==> IsDigit(NatToString(n)[j])
    ensures DigitsValue(NatToString(n)) == n
    decreases n
  {
    if n >= 10 {
      NatToStringDigits(n / 10);
      var r := NatToString(n);
      assert r[..|r| - 1] == NatToString(n / 10);
    }
  }

  /**
   * `stoi` reads back what `to_string` wrote, also when other text that does
   * not start with a digit follows it.
   */
  lemma StoiOfIntToString(i: int, rest: string)
    requires IntMin <= i <= IntMax
    requires rest != [] ==> !IsDigit(rest[0])
    ensures Stoi(IntToString(i) + rest) == Some(i)
  {
    var m: nat := if i < 0 then -i else i;
    var digits := NatToString(m);
    NatToStringDigits(m);
    DigitPrefixOfDigits(digits, rest);
    if i < 0 {
      assert IntToString(i) + rest == "-" + digits + rest;
      StoiOfSignedDigits(digits, rest);
    } else {
      assert IntToString(i) + rest == digits + rest;
      StoiOfDigits(digits, rest);
    }
  }

  lemma StoiOfDigits(digits: string, rest: string)
    requires digits != [] && forall j :: 0 <= j < |digits| ==> IsDigit(digits[j])
    requires DigitPrefix(digits + rest) == |digits|
    requires DigitsValue(digits) <= IntMax
    ensures Stoi(digits + rest) == Some(DigitsValue(digits) as int)
  {
    var s := digits + rest;
    assert IsDigit(s[0]);
    assert SkipSpaces(s) == s;
    assert s[..|digits|] == digits;
  }

  lemma StoiOfSignedDigits(digits: string, rest: string)
    requires digits != [] && forall j :: 0 <= j < |digits| ==> IsDigit(digits[j])
    requires DigitPrefix(digits + rest) == |digits|
    requires DigitsValue(digits) <= -IntMin
    ensures Stoi("-" + digits + rest) == Some(-(DigitsValue(digits) as int))
  {
    var s := "-" + digits + rest;
    var u := digits + rest;
    assert SkipSpaces(s) == s;
    assert s[1..] == u;
    assert u[..|digits|] == digits;
  }

  lemma {:induction false} DigitPrefixOfDigits(digits: string, rest: string)
    requires forall j :: 0 <= j < |digits| ==> IsDigit(digits[j])
    requires rest != [] ==> !IsDigit(rest[0])
    ensures DigitPrefix(digits + rest) == |digits|
  {
    if digits != [] {
      assert (digits + rest)[1..] == digits[1..] + rest;
      DigitPrefixOfDigits(digits[1..], rest);
    } else {
      assert digits + rest == rest;
    }
  }

  // ---------------------------------------------------------------------
  // std::string ordering and std::set<std::string>

  /** `a < b` for `std::string`: byte-wise lexicographic, a proper prefix first. */
  predicate Less(a: string, b: string)
    decreases |a|
  {
    b != [] && (a == [] || a[0] < b[0] || (a[0] == b[0] && Less(a[1..], b[1..])))
  }

  lemma {:induction false} LessIrreflexive(a: string)
    ensures !Less(a, a)
    decreases |a|
  {
    if a != [] {
      LessIrreflexive(a[1..]);
    }
  }

  lemma {:induction false} LessTransitive(a: string, b: string, c: string)
    requires Less(a, b) && Less(b, c)
    ensures Less(a, c)
    decreases |a|
  {
    if a != [] && a[0] == b[0] && b[0] == c[0] {
      LessTransitive(a[1..], b[1..], c[1..]);
    }
  }

  lemma {:induction false} LessTotal(a: string, b: string)
    requires a != b
    ensures Less(a, b) || Less(b, a)
    decreases |a|
  {
    if a != [] && b != [] && a[0] == b[0] {
      assert a == [a[0]] + a[1..] && b == [b[0]] + b[1..];
      LessTotal(a[1..], b[1..]);
    }
  }

  lemma LessAsymmetric(a: string, b: string)
    requires Less(a, b)
    ensures !Less(b, a)
  {
    if Less(b, a) {
      LessTransitive(a, b, a);
      LessIrreflexive(a);
    }
  }

  /** Strictly increasing: the iteration order of a `std::set<std::string>`. */
  predicate StrictlySorted(xs: seq<string>)
  {
    forall i, j :: 0 <= i < j < |xs| ==> Less(xs[i], xs[j])
  }

  /** `std::set<std::string>::insert` on the set's elements in iteration order. */
  function Insert(xs: seq<string>, w: string): seq<string>
  {
    if xs == [] then [w]
    else if w == xs[0] then xs
    else if Less(w, xs[0]) then [w] + xs
    else [xs[0]] + Insert(xs[1..], w)
  }

  /** Inserting keeps the order strict and adds exactly the new word. */
  lemma {:induction false} InsertSorted(xs: seq<string>, w: string)
    requires StrictlySorted(xs)
    ensures StrictlySorted(Insert(xs, w))
    ensures forall v :: v in Insert(xs, w) <==> v in xs || v == w
  {
    if xs != [] && w != xs[0] {
      if Less(w, xs[0]) {
        var r := [w] + xs;
        forall i, j | 0 <= i < j < |r| ensures Less(r[i], r[j]) {
          if i == 0 && j > 1 {
            LessTransitive(w, xs[0], xs[j - 1]);
          }
        }
      } else {
        LessTotal(w, xs[0]);
        InsertSorted(xs[1..], w);
        var tail := Insert(xs[1..], w);
        var r := [xs[0]] + tail;
        forall i, j | 0 <= i < j < |r| ensures Less(r[i], r[j]) {
          if i == 0 {
            assert r[j] in tail;
            if r[j] != w {
              var k :| 0 <= k < |xs[1..]| && xs[1..][k] == r[j];
              assert xs[k + 1] == r[j];
            }
          }
        }
      }
    }
  }

  lemma TailElements(xs: seq<string>)
    requires StrictlySorted(xs) && xs != []
    ensures forall v :: v in xs[1..] <==> v in xs && v != xs[0]
  {
    forall v ensures v in xs[1..] <==> v in xs && v != xs[0] {
      if v in xs[1..] {
        var k :| 0 <= k < |xs| - 1 && xs[1..][k] == v;
        assert Less(xs[0], xs[k + 1]);
        LessIrreflexive(xs[0]);
      }
      if v in xs && v != xs[0] {
        var k :| 0 <= k < |xs| && xs[k] == v;
        assert xs[1..][k - 1] == v;
      }
    }
  }

  lemma FirstIsLeast(xs: seq<string>, v: string)
    requires StrictlySorted(xs) && v in xs && v != xs[0]
    ensures Less(xs[0], v)
  {
    var k :| 0 <= k < |xs| && xs[k] == v;
  }

  /** Two strictly sorted sequences with the same elements are the same sequence. */
  lemma {:induction false} SortedUnique(xs: seq<string>, ys: seq<string>)
    requires StrictlySorted(xs) && StrictlySorted(ys)
    requires forall v :: v in xs <==> v in ys
    ensures xs == ys
  {
    assert xs != [] ==> xs[0] in xs && xs[0] in ys;
    assert ys != [] ==> ys[0] in ys && ys[0] in xs;
    if xs != [] && ys != [] {
      if xs[0] != ys[0] {
        FirstIsLeast(ys, xs[0]);
        FirstIsLeast(xs, ys[0]);
        LessAsymmetric(ys[0], xs[0]);
      }
      TailElements(xs);
      TailElements(ys);
      SortedUnique(xs[1..], ys[1..]);
      assert xs == [xs[0]] + xs[1..] && ys == [ys[0]] + ys[1..];
    }
  }

  // ---------------------------------------------------------------------
  // std::map<int, _> iteration order

  lemma {:induction false} LeastExists(s: set<int>)
    requires s != {}
    ensures exists m :: m in s && forall x :: x in s ==> m <= x
    decreases |s|
  {
    if forall z :: z !in s { assert false; }
    var y :| y in s;
    var s' := s - {y};
    forall x | x in s ensures x == y || x in s' {}
    if s' != {} {
      LeastExists(s');
      var m :| m in s' && forall x :: x in s' ==> m <= x;
      var least := if y < m then y else m;
      assert least in s && forall x :: x in s ==> least <= x;
    } else {
      assert forall x :: x in s ==> y <= x;
    }
  }

  /** The smallest key. */
  function Least(s: set<int>): (m: int)
    requires s != {}
    ensures m in s && forall x :: x in s ==> m <= x
  {
    LeastExists(s);
    var m :| m in s && forall x :: x in s ==> m <= x; m
  }

  /** The keys of a `std::map<int, _>` in the order its iterators visit them. */
  function Ascending(s: set<int>): seq<int>
    decreases |s|
  {
    if s == {} then []
    else
      var m := Least(s);
      [m] + Ascending(s - {m})
  }

  /** `Ascending` lists every key, and nothing else. */
  lemma {:induction false} AscendingMembers(s: set<int>)
    ensures |Ascending(s)| == |s|
    ensures forall x :: x in Ascending(s) <==> x in s
    decreases |s|
  {
    if s != {} {
      var m := Least(s);
      AscendingMembers(s - {m});
      assert Ascending(s) == [m] + Ascending(s - {m});
    }
  }

  /** `Ascending` lists the keys in strictly increasing order. */
  lemma {:induction false} AscendingOrder(s: set<int>)
    ensures |Ascending(s)| == |s|
    ensures forall x :: x in Ascending(s) <==> x in s
    ensures forall i, j :: 0 <= i < j < |Ascending(s)| ==> Ascending(s)[i] < Ascending(s)[j]
    decreases |s|
  {
    AscendingMembers(s);
    if s != {} {
      var m := Least(s);
      var t := s - {m};
      var rt := Ascending(t);
      AscendingOrder(t);
      var r := Ascending(s);
      assert r == [m] + rt;
      forall i, j | 0 <= i < j < |r| ensures r[i] < r[j] {
        if i == 0 {
          assert r[j] == rt[j - 1];
          assert rt[j - 1] in rt;
          assert r[j] in t;
        } else {
          assert r[i] == rt[i - 1] && r[j] == rt[j - 1];
        }
      }
    }
  }

  /** The keys of a `std::map<int, _>` in iteration order, with the facts callers rely on. */
  function KeysInOrder(s: set<int>): (ids: seq<int>)
    ensures |ids| == |s|
    ensures forall k :: 0 <= k < |ids| ==> ids[k] in s
    ensures forall x :: x in s ==> x in ids
    ensures forall i, j :: 0 <= i < j < |ids| ==> ids[i] < ids[j]
  {
    AscendingOrder(s);
    var ids := Ascending(s);
    assert forall k :: 0 <= k < |ids| ==> ids[k] in s by {
      forall k | 0 <= k < |ids| ensures ids[k] in s {
        assert ids[k] in ids;
      }
    }
    ids
  }
}
