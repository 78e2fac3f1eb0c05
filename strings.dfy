/** The JavaScript string primitives the source relies on, stated over sequences of characters:
    `trim`, `split`, decimal number text, `padStart(2, "0")`, code-unit order and ASCII lower-casing. */
module Strings {
  import opened Common
  import opened Seqs

  /** ECMAScript WhiteSpace and LineTerminator code points, the set `String.prototype.trim` removes. */
  const JsWhitespace: set<char> := {
    '\t', '\n', '\U{000B}', '\U{000C}', '\r', ' ', '\U{00A0}', '\U{1680}',
    '\U{2000}', '\U{2001}', '\U{2002}', '\U{2003}', '\U{2004}', '\U{2005}', '\U{2006}', '\U{2007}',
    '\U{2008}', '\U{2009}', '\U{200A}',
    '\U{2028}', '\U{2029}', '\U{202F}', '\U{205F}', '\U{3000}', '\U{FEFF}'
  }

  /** Where trimming the start stops: the first index from `i` on whose character is not in `ws`
      (`|s|` when there is none). */
  function TrimStartIndex(s: string, ws: set<char>, i: nat): (k: nat)
    requires i <= |s|
    ensures i <= k <= |s|
    ensures forall j :: i <= j < k ==> s[j] in ws
    ensures k == |s| || s[k] !in ws
    decreases |s| - i
  {
    if i < |s| && s[i] in ws then TrimStartIndex(s, ws, i + 1) else i
  }

  /** Where trimming the end stops: cutting back from `e`, but not past `k`, while the last character is
      in `ws`. */
  function TrimEndIndex(s: string, ws: set<char>, k: nat, e: nat): (f: nat)
    requires k <= e <= |s|
    ensures k <= f <= e
    ensures forall j :: f <= j < e ==> s[j] in ws
    ensures f == k || s[f - 1] !in ws
    decreases e - k
  {
    if k < e && s[e - 1] in ws then TrimEndIndex(s, ws, k, e - 1) else e
  }

  /** Removing the leading and then the trailing characters of `ws`: the slice between the two indices
      above, which has no `ws` character on either end. */
  function TrimBy(s: string, ws: set<char>): (r: string)
    ensures r == [] || (r[0] !in ws && r[|r| - 1] !in ws)
  {
    var k := TrimStartIndex(s, ws, 0);
    s[k..TrimEndIndex(s, ws, k, |s|)]
  }

  /** What trimming cuts is white space only: everything before the slice it keeps and everything after. */
  lemma TrimByCuts(s: string, ws: set<char>)
    ensures var k := TrimStartIndex(s, ws, 0); var r := TrimBy(s, ws);
      && k + |r| <= |s| && r == s[k..k + |r|]
      && (forall i :: 0 <= i < k ==> s[i] in ws)
      && (forall i :: k + |r| <= i < |s| ==> s[i] in ws)
  {
  }

  /** A string with no `ws` character is its own trim. */
  lemma TrimByNone(s: string, ws: set<char>)
    requires forall i :: 0 <= i < |s| ==> s[i] !in ws
    ensures TrimBy(s, ws) == s
  {
    if s != [] {
      assert s[0] !in ws;
      assert s[|s| - 1] !in ws;
    }
  }

  /** Trimming leaves nothing exactly when every character is in `ws`. */
  lemma TrimByEmptyIff(s: string, ws: set<char>)
    ensures TrimBy(s, ws) == [] <==> forall i :: 0 <= i < |s| ==> s[i] in ws
  {
    var k := TrimStartIndex(s, ws, 0);
    if k < |s| {
      assert s[k] !in ws;
    }
  }

  /** `s.trim()`. */
  function Trim(s: string): string {
    TrimBy(s, JsWhitespace)
  }

  /** `map((s) => s.trim())`: each text trimmed. */
  function TrimEach(texts: seq<string>): (r: seq<string>)
    ensures |r| == |texts|
    ensures forall i :: 0 <= i < |texts| ==> r[i] == Trim(texts[i])
  {
    seq(|texts|, i requires 0 <= i < |texts| => Trim(texts[i]))
  }

  /** Printable ASCII characters other than the space are never white space. */
  lemma VisibleAsciiNotWhitespace(c: char)
    requires '!' <= c <= '~'
    ensures c !in JsWhitespace
  {
  }

  /** A string of printable ASCII characters is its own trim. */
  lemma TrimVisibleAscii(s: string)
    requires forall i :: 0 <= i < |s| ==> '!' <= s[i] <= '~'
    ensures Trim(s) == s
  {
    forall i | 0 <= i < |s| ensures s[i] !in JsWhitespace {
      VisibleAsciiNotWhitespace(s[i]);
    }
    TrimByNone(s, JsWhitespace);
  }

  /** Trimming is idempotent. */
  lemma TrimIdempotent(s: string)
    ensures Trim(Trim(s)) == Trim(s)
  {
    var r := Trim(s);
    if r != [] {
      assert TrimStartIndex(r, JsWhitespace, 0) == 0;
      assert TrimEndIndex(r, JsWhitespace, 0, |r|) == |r|;
    }
  }

  /** The index of the first character from `i` on that is in `seps`, or `|s|` when there is none. */
  function NextSep(s: string, seps: set<char>, i: nat): (j: nat)
    requires i <= |s|
    ensures i <= j <= |s|
    ensures forall k :: i <= k < j ==> s[k] !in seps
    ensures j == |s| || s[j] in seps
    decreases |s| - i
  {
    if i == |s| || s[i] in seps then i else NextSep(s, seps, i + 1)
  }

  /** The pieces of `s[i..]` between separators. */
  function SplitFrom(s: string, seps: set<char>, i: nat): (r: seq<string>)
    requires i <= |s|
    ensures |r| >= 1
    decreases |s| - i
  {
    var j := NextSep(s, seps, i);
    [s[i..j]] + if j == |s| then [] else SplitFrom(s, seps, j + 1)
  }

  /** `s.split(sep)` for separators given as a set of characters (a one-character string or a
      character class). */
  function SplitBy(s: string, seps: set<char>): (r: seq<string>)
    ensures |r| >= 1
  {
    SplitFrom(s, seps, 0)
  }

  /** The first piece from `i` on, followed by the pieces after its separator. */
  lemma SplitFromUnfold(s: string, seps: set<char>, i: nat)
    requires i <= |s|
    ensures NextSep(s, seps, i) == |s| ==> SplitFrom(s, seps, i) == [s[i..]]
    ensures NextSep(s, seps, i) < |s| ==>
      SplitFrom(s, seps, i) == [s[i..NextSep(s, seps, i)]] + SplitFrom(s, seps, NextSep(s, seps, i) + 1)
  {
    assert NextSep(s, seps, i) == |s| ==> s[i..NextSep(s, seps, i)] == s[i..];
  }

  /** No piece holds a separator, and every character of a piece is a character of `s`. */
  lemma {:induction false} SplitFromPiecesPlain(s: string, seps: set<char>, i: nat)
    requires i <= |s|
    ensures forall p, c :: p in SplitFrom(s, seps, i) && c in p ==> c !in seps && c in s
    decreases |s| - i
  {
    var j := NextSep(s, seps, i);
    if j < |s| {
      SplitFromPiecesPlain(s, seps, j + 1);
    }
    forall p, c | p in SplitFrom(s, seps, i) && c in p ensures c !in seps && c in s {
      if p == s[i..j] {
        var k :| 0 <= k < |p| && p[k] == c;
        assert s[i + k] == c;
      }
    }
  }

  /** No piece of `s.split(...)` holds a separator, and the pieces are made of characters of `s`. */
  lemma SplitByPiecesPlain(s: string, seps: set<char>)
    ensures forall p, c :: p in SplitBy(s, seps) && c in p ==> c !in seps && c in s
  {
    SplitFromPiecesPlain(s, seps, 0);
  }

  /** The first separator from `i` on is at `j` when there is none in between. */
  lemma {:induction false} NextSepIs(s: string, seps: set<char>, i: nat, j: nat)
    requires i <= j <= |s|
    requires forall k :: i <= k < j ==> s[k] !in seps
    requires j == |s| || s[j] in seps
    ensures NextSep(s, seps, i) == j
    decreases j - i
  {
    if i < j {
      assert s[i] !in seps;
      NextSepIs(s, seps, i + 1, j);
    }
  }

  /** A string without separators is a single piece. */
  lemma SplitByPlain(a: string, seps: set<char>)
    requires forall i :: 0 <= i < |a| ==> a[i] !in seps
    ensures SplitBy(a, seps) == [a]
  {
    NextSepIs(a, seps, 0, |a|);
    assert a[0..|a|] == a;
  }

  /** A string with exactly one separator splits into the text before it and the text after it. */
  lemma SplitByOnce(a: string, c: char, b: string, seps: set<char>)
    requires forall i :: 0 <= i < |a| ==> a[i] !in seps
    requires forall i :: 0 <= i < |b| ==> b[i] !in seps
    requires c in seps
    ensures SplitBy(a + [c] + b, seps) == [a, b]
  {
    var s := a + [c] + b;
    forall k | 0 <= k < |a| ensures s[k] !in seps {
      assert s[k] == a[k];
    }
    assert s[|a|] == c;
    NextSepIs(s, seps, 0, |a|);
    forall k | |a| + 1 <= k < |s| ensures s[k] !in seps {
      assert s[k] == b[k - |a| - 1];
    }
    NextSepIs(s, seps, |a| + 1, |s|);
    assert s[0..|a|] == a && s[|a| + 1..|s|] == b;
    assert SplitFrom(s, seps, |a| + 1) == [b];
    assert SplitFrom(s, seps, 0) == [a] + [b];
  }

  /** When `s` ends with `b` after `d` characters, the next separator and the piece before it are
      found at the same places, shifted by `d`. */
  lemma NextSepShift(s: string, b: string, seps: set<char>, d: nat, i: nat)
    requires |s| == d + |b| && i <= |b|
    requires forall k :: 0 <= k < |b| ==> s[d + k] == b[k]
    ensures var j := NextSep(b, seps, i);
      NextSep(s, seps, d + i) == d + j && s[d + i..d + j] == b[i..j]
  {
    var j := NextSep(b, seps, i);
    forall k | d + i <= k < d + j ensures s[k] !in seps {
      assert s[d + (k - d)] == b[k - d];
    }
    assert j < |b| ==> s[d + j] == b[j];
    NextSepIs(s, seps, d + i, d + j);
    assert s[d + i..d + j] == b[i..j];
  }

  /** Splitting is not affected by text in front of the place it starts from: when `s` ends with
      `b` after `d` characters, splitting `s` from `d + i` is splitting `b` from `i`. */
  lemma {:induction false} SplitFromShift(s: string, b: string, seps: set<char>, d: nat, i: nat)
    requires |s| == d + |b| && i <= |b|
    requires forall k :: 0 <= k < |b| ==> s[d + k] == b[k]
    ensures SplitFrom(s, seps, d + i) == SplitFrom(b, seps, i)
    decreases |b| - i
  {
    var j := NextSep(b, seps, i);
    NextSepShift(s, b, seps, d, i);
    if j < |b| {
      SplitFromShift(s, b, seps, d, j + 1);
      assert d + j + 1 == d + (j + 1);
    }
  }

  /** The text before the first separator is the first piece, and the rest is split after it:
      `(a + c + b).split(sep)` is `[a, ...b.split(sep)]`. */
  lemma SplitByCons(a: string, c: char, b: string, seps: set<char>)
    requires forall i :: 0 <= i < |a| ==> a[i] !in seps
    requires c in seps
    ensures SplitBy(a + [c] + b, seps) == [a] + SplitBy(b, seps)
  {
    var s := a + [c] + b;
    forall k | 0 <= k < |a| ensures s[k] !in seps {
      assert s[k] == a[k];
    }
    assert s[|a|] == c;
    NextSepIs(s, seps, 0, |a|);
    assert s[0..|a|] == a;
    forall k | 0 <= k < |b| ensures s[|a| + 1 + k] == b[k] {
    }
    SplitFromShift(s, b, seps, |a| + 1, 0);
  }

  /** `pieces.join(c)`: the pieces with `c` between each two. */
  function Join(pieces: seq<string>, c: char): string {
    if pieces == [] then "" else if |pieces| == 1 then pieces[0] else pieces[0] + [c] + Join(pieces[1..], c)
  }

  /** Joining the pieces of `s[i..]` back with their one separator gives `s[i..]`. */
  lemma {:induction false} JoinSplitFrom(s: string, c: char, i: nat)
    requires i <= |s|
    ensures Join(SplitFrom(s, {c}, i), c) == s[i..]
    decreases |s| - i
  {
    var j := NextSep(s, {c}, i);
    SplitFromUnfold(s, {c}, i);
    if j < |s| {
      var more := SplitFrom(s, {c}, j + 1);
      JoinSplitFrom(s, c, j + 1);
      assert ([s[i..j]] + more)[1..] == more;
      assert Join([s[i..j]] + more, c) == s[i..j] + [c] + Join(more, c);
      assert s[j] == c;
      SliceSplit(s, i, j);
    } else {
      assert s[i..j] == s[i..];
    }
  }

  /** Splitting at a character and joining back at it gives the text again. */
  lemma JoinSplitBy(s: string, c: char)
    ensures Join(SplitBy(s, {c}), c) == s
  {
    JoinSplitFrom(s, c, 0);
  }

  /** Pieces without the separator, joined at it and split again, come back as they were. */
  lemma {:induction false} SplitByJoin(pieces: seq<string>, c: char)
    requires pieces != []
    requires forall k, m :: 0 <= k < |pieces| && 0 <= m < |pieces[k]| ==> pieces[k][m] != c
    ensures SplitBy(Join(pieces, c), {c}) == pieces
  {
    var p := pieces[0];
    assert forall m :: 0 <= m < |p| ==> p[m] !in {c};
    if |pieces| == 1 {
      SplitByPlain(p, {c});
    } else {
      var more := pieces[1..];
      assert forall k, m :: 0 <= k < |more| && 0 <= m < |more[k]| ==> more[k][m] != c by {
        forall k, m | 0 <= k < |more| && 0 <= m < |more[k]| ensures more[k][m] != c {
          assert more[k] == pieces[k + 1];
        }
      }
      SplitByJoin(more, c);
      SplitByCons(p, c, Join(more, c), {c});
      assert pieces == [p] + more;
    }
  }

  /** The joined text ends with the last character of the last piece, when that piece has one. */
  lemma {:induction false} JoinEndsWithLast(pieces: seq<string>, c: char)
    requires pieces != [] && pieces[|pieces| - 1] != []
    ensures var j := Join(pieces, c); var last := pieces[|pieces| - 1];
      j != [] && j[|j| - 1] == last[|last| - 1]
  {
    if |pieces| > 1 {
      var more := pieces[1..];
      JoinEndsWithLast(more, c);
      assert more[|more| - 1] == pieces[|pieces| - 1];
    }
  }

  /** Text added to the last piece is added at the end of the joined text. */
  lemma {:induction false} JoinExtendLast(pieces: seq<string>, c: char, x: string)
    requires pieces != []
    ensures Join(pieces[..|pieces| - 1] + [pieces[|pieces| - 1] + x], c) == Join(pieces, c) + x
  {
    var q := pieces[..|pieces| - 1] + [pieces[|pieces| - 1] + x];
    if |pieces| > 1 {
      var more := pieces[1..];
      JoinExtendLast(more, c, x);
      assert q[0] == pieces[0];
      assert q[1..] == more[..|more| - 1] + [more[|more| - 1] + x];
      AppendAssoc(pieces[0] + [c], Join(more, c), x);
    }
  }

  /** A character that is not a separator survives into the pieces. */
  lemma {:induction false} SplitFromKeeps(s: string, seps: set<char>, i: nat, k: nat)
    requires i <= k < |s| && s[k] !in seps
    ensures exists p :: p in SplitFrom(s, seps, i) && s[k] in p
    decreases |s| - i
  {
    var j := NextSep(s, seps, i);
    var r := SplitFrom(s, seps, i);
    if k < j {
      assert s[i..j][k - i] == s[k];
      assert r[0] == s[i..j];
      assert r[0] in r && s[k] in r[0];
    } else {
      assert k != j;
      SplitFromKeeps(s, seps, j + 1, k);
      var rest := SplitFrom(s, seps, j + 1);
      assert r == [s[i..j]] + rest;
      var p :| p in rest && s[k] in p;
      var m :| 0 <= m < |rest| && rest[m] == p;
      assert r[m + 1] == p;
      assert p in r;
    }
  }

  /** A character of `s` that is not a separator is in some piece of `s.split(...)`. */
  lemma SplitByKeeps(s: string, seps: set<char>, c: char)
    requires c in s && c !in seps
    ensures exists p :: p in SplitBy(s, seps) && c in p
  {
    var k :| 0 <= k < |s| && s[k] == c;
    SplitFromKeeps(s, seps, 0, k);
  }

  /** Trimming keeps only characters of the string. */
  lemma TrimChars(s: string, c: char)
    requires c in Trim(s)
    ensures c in s
  {
    TrimByCuts(s, JsWhitespace);
    var k := TrimStartIndex(s, JsWhitespace, 0);
    var r := Trim(s);
    var m :| 0 <= m < |r| && r[m] == c;
    assert s[k + m] == c;
  }

  /** A character other than white space survives trimming. */
  lemma TrimKeeps(s: string, ws: set<char>, c: char)
    requires c in s && c !in ws
    ensures c in TrimBy(s, ws)
  {
    TrimByCuts(s, ws);
    var k := TrimStartIndex(s, ws, 0);
    var r := TrimBy(s, ws);
    var i :| 0 <= i < |s| && s[i] == c;
    assert s[i] == r[i - k];
  }

  predicate IsAsciiDigit(c: char) { '0' <= c <= '9' }

  predicate AllDigits(s: string) { forall i :: 0 <= i < |s| ==> IsAsciiDigit(s[i]) }

  function DigitValue(c: char): nat
    requires IsAsciiDigit(c)
  {
    (c as int - '0' as int) as nat
  }

  function DigitChar(d: nat): (c: char)
    requires d < 10
    ensures IsAsciiDigit(c) && DigitValue(c) == d
  {
    ('0' as int + d) as char
  }

  /** The value of a string of decimal digits, most significant first. */
  function DecimalValue(s: string): nat
    requires AllDigits(s)
  {
    if s == [] then 0 else 10 * DecimalValue(s[..|s| - 1]) + DigitValue(s[|s| - 1])
  }

  /** Two ASCII digits read as tens and units. */
  lemma DecimalValueTwoDigits(a: char, b: char)
    requires IsAsciiDigit(a) && IsAsciiDigit(b)
    ensures DecimalValue([a, b]) == 10 * DigitValue(a) + DigitValue(b)
  {
    var s := [a, b];
    assert s[..|s| - 1] == [a];
    assert [a][..0] == [];
    assert DecimalValue([a]) == DigitValue(a);
  }

  /** `Number(s)` for a non-empty string of ASCII digits; anything else is not a decimal integer here. */
  function ParseDecimal(s: string): (r: Option<nat>)
    ensures r.Some? <==> s != [] && AllDigits(s)
  {
    if s != [] && AllDigits(s) then Some(DecimalValue(s)) else None
  }

  /** `String(n)` for a non-negative integer: its decimal digits without leading zeros. */
  function NatToString(n: nat): (r: string)
    ensures r != [] && AllDigits(r)
    ensures r[0] == '0' ==> n == 0 && r == "0"
    ensures DecimalValue(r) == n
    decreases n
  {
    if n < 10 then [DigitChar(n)]
    else
      var r := NatToString(n / 10) + [DigitChar(n % 10)];
      assert r[..|r| - 1] == NatToString(n / 10);
      r
  }

  /** Different numbers are written differently. */
  lemma NatToStringInjective(a: nat, b: nat)
    requires NatToString(a) == NatToString(b)
    ensures a == b
  {
  }

  /** `${n}` for an integer `n`. */
  function IntToString(n: int): (r: string)
    ensures n >= 0 ==> r == NatToString(n)
    ensures n < 0 ==> r == "-" + NatToString(-n)
  {
    if n < 0 then "-" + NatToString(-n) else NatToString(n)
  }

  /** `String(n).padStart(2, "0")` for `0 <= n < 100`: exactly two digits that read back as `n`. */
  function Pad2(n: nat): (r: string)
    requires n < 100
    ensures |r| == 2 && AllDigits(r) && DecimalValue(r) == n
  {
    var r := [DigitChar(n / 10), DigitChar(n % 10)];
    assert r[..1] == [DigitChar(n / 10)] && r[..1][..0] == [];
    assert DecimalValue(r[..1]) == n / 10;
    r
  }

  /** Two digits read back through `Pad2` give the same two characters. */
  lemma Pad2OfDigits(t: string)
    requires |t| == 2 && AllDigits(t)
    ensures DecimalValue(t) < 100 && Pad2(DecimalValue(t)) == t
  {
    assert t == [t[0], t[1]];
    DecimalValueTwoDigits(t[0], t[1]);
    var v := DecimalValue(t);
    assert v / 10 == DigitValue(t[0]) && v % 10 == DigitValue(t[1]);
    assert DigitChar(DigitValue(t[0])) == t[0];
    assert DigitChar(DigitValue(t[1])) == t[1];
  }

  /** Lexicographic order by character code, standing in for `localeCompare(...) <= 0`. */
  predicate StrLe(a: string, b: string) {
    if a == [] then true
    else if b == [] then false
    else if a[0] != b[0] then a[0] < b[0]
    else StrLe(a[1..], b[1..])
  }

  lemma {:induction false} StrLeTotal(a: string, b: string)
    ensures StrLe(a, b) || StrLe(b, a)
  {
    if a != [] && b != [] && a[0] == b[0] {
      StrLeTotal(a[1..], b[1..]);
    }
  }

  lemma {:induction false} StrLeAntisymmetric(a: string, b: string)
    requires StrLe(a, b) && StrLe(b, a)
    ensures a == b
  {
    if a != [] && b != [] {
      StrLeAntisymmetric(a[1..], b[1..]);
      assert a == [a[0]] + a[1..];
      assert b == [b[0]] + b[1..];
    }
  }

  lemma {:induction false} StrLeTransitive(a: string, b: string, c: string)
    requires StrLe(a, b) && StrLe(b, c)
    ensures StrLe(a, c)
  {
    if a != [] && b != [] && c != [] && a[0] == b[0] && b[0] == c[0] {
      StrLeTransitive(a[1..], b[1..], c[1..]);
    }
  }

  function ToLowerAsciiChar(c: char): char {
    if 'A' <= c <= 'Z' then (c as int + 32) as char else c
  }

  /** `toLowerCase` restricted to the ASCII letters. */
  function ToLowerAscii(s: string): (r: string)
    ensures |r| == |s|
    ensures forall i :: 0 <= i < |s| ==> r[i] == ToLowerAsciiChar(s[i])
  {
    if s == [] then [] else [ToLowerAsciiChar(s[0])] + ToLowerAscii(s[1..])
  }

  /** `s.startsWith(prefix)`. */
  predicate StartsWith(s: string, prefix: string) {
    |prefix| <= |s| && s[..|prefix|] == prefix
  }
}
