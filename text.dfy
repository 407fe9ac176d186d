/**
 * The string primitives the tool relies on, with Python's meaning:
 * `str.strip()`, `str.lower()` (as far as the tool's substring test can see),
 * `in` on strings, `str.split`, `int()` on decimal digits and `f"{n}"`.
 */
module Text {
  import opened Wrappers

  /** The characters for which Python's `str.isspace()` holds; `str.strip()` removes exactly these. */
  predicate IsSpace(c: char) {
    c == ' ' || ('\t' <= c <= '\r') || ('\U{1C}' <= c <= '\U{1F}') ||
    c == '\U{85}' || c == '\U{A0}' || c == '\U{1680}' || ('\U{2000}' <= c <= '\U{200A}') ||
    c == '\U{2028}' || c == '\U{2029}' || c == '\U{202F}' || c == '\U{205F}' || c == '\U{3000}'
  }

  predicate IsDigit(c: char) {
    '0' <= c <= '9'
  }

  predicate AllDigits(s: string) {
    forall i | 0 <= i < |s| :: IsDigit(s[i])
  }

  /** A run of whitespace, possibly empty. */
  predicate AllSpace(s: string) {
    forall k | 0 <= k < |s| :: IsSpace(s[k])
  }

  /** A string with no whitespace at either end: what `strip()` leaves behind. */
  predicate Trimmed(s: string) {
    s == [] || (!IsSpace(s[0]) && !IsSpace(s[|s| - 1]))
  }

  function TrimStart(s: string): (r: string)
    ensures |r| <= |s| && r == s[|s| - |r|..]
    ensures forall k | 0 <= k < |s| - |r| :: IsSpace(s[k])
    ensures r == [] || !IsSpace(r[0])
  {
    if |s| > 0 && IsSpace(s[0]) then TrimStart(s[1..]) else s
  }

  function TrimEnd(s: string): (r: string)
    ensures |r| <= |s| && r == s[..|r|]
    ensures forall k | |r| <= k < |s| :: IsSpace(s[k])
    ensures r == [] || !IsSpace(r[|r| - 1])
  {
    if |s| > 0 && IsSpace(s[|s| - 1]) then TrimEnd(s[..|s| - 1]) else s
  }

  /** Python's `s.strip()`: whitespace cut away on either side. */
  function Strip(s: string): (r: string)
    ensures Trimmed(r)
    ensures Trimmed(s) ==> r == s
  {
    var t := TrimStart(s);
    var r := TrimEnd(t);
    assert r != [] ==> r[0] == t[0];
    assert Trimmed(s) && s != [] ==> t == s && TrimEnd(s) == s;
    r
  }

  /** What `strip()` leaves is a piece of the string, with only whitespace cut away around it. */
  lemma StripPiece(s: string)
    ensures exists i | 0 <= i <= |s| - |Strip(s)| ::
      && OccursAt(s, Strip(s), i)
      && (forall k | 0 <= k < i :: IsSpace(s[k]))
      && (forall k | i + |Strip(s)| <= k < |s| :: IsSpace(s[k]))
  {
    var t := TrimStart(s);
    var r := TrimEnd(t);
    var i := |s| - |t|;
    StripOf(s);
    PieceOf(s, t, r, i);
    assert 0 <= i <= |s| - |Strip(s)| && OccursAt(s, Strip(s), i);
  }

  /** The string is what `strip()` leaves, with the whitespace it cut away before and after it. */
  lemma StripAround(s: string) returns (pre: string, post: string)
    ensures AllSpace(pre) && AllSpace(post)
    ensures s == pre + Strip(s) + post
  {
    var t := TrimStart(s);
    var r := TrimEnd(t);
    var i := |s| - |t|;
    StripOf(s);
    PieceOf(s, t, r, i);
    pre, post := Surround(s, r, i);
  }

  /** A piece of `s` with only whitespace before and after it. */
  lemma Surround(s: string, r: string, i: nat) returns (pre: string, post: string)
    requires OccursAt(s, r, i)
    requires forall k | 0 <= k < i :: IsSpace(s[k])
    requires forall k | i + |r| <= k < |s| :: IsSpace(s[k])
    ensures AllSpace(pre) && AllSpace(post)
    ensures s == pre + r + post
  {
    pre, post := s[..i], s[i + |r|..];
    assert s == pre + s[i..i + |r|] + post;
  }

  /** Two runs of whitespace make one. */
  lemma AllSpaceAppend(a: string, b: string)
    requires AllSpace(a) && AllSpace(b)
    ensures AllSpace(a + b)
  {
    forall k | |a| <= k < |a + b| ensures IsSpace((a + b)[k]) {
      assert (a + b)[k] == b[k - |a|];
    }
  }

  /** The facts `StripPiece` needs, about the two trimming steps taken one after the other. */
  lemma PieceOf(s: string, t: string, r: string, i: nat)
    requires |t| <= |s| && t == s[|s| - |t|..] && i == |s| - |t|
    requires |r| <= |t| && r == t[..|r|]
    requires forall k | |r| <= k < |t| :: IsSpace(t[k])
    ensures OccursAt(s, r, i)
    ensures forall k | i + |r| <= k < |s| :: IsSpace(s[k])
  {
    assert s[i..i + |r|] == t[..|r|];
    forall k | i + |r| <= k < |s| ensures IsSpace(s[k]) {
      assert s[k] == t[k - i];
    }
  }

  /** Whitespace around a trimmed string is exactly what `strip()` removes. */
  lemma {:induction false} StripPadded(pre: string, s: string, post: string)
    requires forall k | 0 <= k < |pre| :: IsSpace(pre[k])
    requires forall k | 0 <= k < |post| :: IsSpace(post[k])
    requires Trimmed(s) && s != []
    ensures Strip(pre + s + post) == s
  {
    assert pre + s + post == pre + (s + post);
    TrimStartPadded(pre, s + post);
    TrimEndPadded(s, post);
    StripOf(pre + (s + post));
  }

  /** `strip()` trims the start and then the end. */
  lemma StripOf(s: string)
    ensures Strip(s) == TrimEnd(TrimStart(s))
  {
  }

  lemma {:induction false} TrimStartPadded(pre: string, s: string)
    requires forall k | 0 <= k < |pre| :: IsSpace(pre[k])
    requires s != [] && !IsSpace(s[0])
    ensures TrimStart(pre + s) == s
  {
    if pre != [] {
      assert (pre + s)[1..] == pre[1..] + s;
      TrimStartPadded(pre[1..], s);
    }
  }

  lemma {:induction false} TrimEndPadded(s: string, post: string)
    requires forall k | 0 <= k < |post| :: IsSpace(post[k])
    requires s != [] && !IsSpace(s[|s| - 1])
    ensures TrimEnd(s + post) == s
  {
    if post != [] {
      var p := post[..|post| - 1];
      assert (s + post)[..|s + post| - 1] == s + p;
      TrimEndPadded(s, p);
    }
  }

  /** `str.lower()` on the ASCII letters. */
  function LowerChar(c: char): char {
    if 'A' <= c <= 'Z' then (c as int - 'A' as int + 'a' as int) as char else c
  }

  function Lower(s: string): (r: string)
    ensures |r| == |s|
  {
    seq(|s|, i requires 0 <= i < |s| => LowerChar(s[i]))
  }

  predicate OccursAt(s: string, pat: string, i: nat) {
    i + |pat| <= |s| && s[i..i + |pat|] == pat
  }

  /** Python's `pat in s`. */
  predicate Contains(s: string, pat: string) {
    exists i | 0 <= i <= |s| :: OccursAt(s, pat, i)
  }

  /** A string contains whatever sits in its middle. */
  lemma ContainsMiddle(pre: string, pat: string, post: string)
    ensures Contains(pre + pat + post, pat)
  {
    assert OccursAt(pre + pat + post, pat, |pre|);
  }

  /** Position of the first character of `s` that belongs to `seps`. */
  function FirstIndexIn(s: string, seps: set<char>): (r: Option<nat>)
    ensures r.None? <==> forall k | 0 <= k < |s| :: s[k] !in seps
    ensures r.Some? ==> r.value < |s| && s[r.value] in seps && forall k | 0 <= k < r.value :: s[k] !in seps
  {
    if s == [] then None
    else if s[0] in seps then Some(0)
    else match FirstIndexIn(s[1..], seps)
      case None => None
      case Some(k) => Some(k + 1)
  }

  /** The first separator is at `i` when `s[i]` is one and nothing before it is. */
  lemma FirstIndexAt(s: string, seps: set<char>, i: nat)
    requires i < |s| && s[i] in seps
    requires forall k | 0 <= k < i :: s[k] !in seps
    ensures FirstIndexIn(s, seps) == Some(i)
  {
  }

  /**
   * Python's `s.split(sep)` generalised to a set of separator characters: the pieces between
   * separators, empty pieces included, so there is always one piece more than separators.
   */
  function Split(s: string, seps: set<char>): (parts: seq<string>)
    ensures |parts| >= 1
    decreases |s|
  {
    match FirstIndexIn(s, seps)
    case None => [s]
    case Some(i) => [s[..i]] + Split(s[i + 1..], seps)
  }

  /** How many characters of `s` are separators. */
  function CountIn(s: string, seps: set<char>): nat {
    if s == [] then 0 else (if s[0] in seps then 1 else 0) + CountIn(s[1..], seps)
  }

  lemma {:induction false} CountInAppend(a: string, b: string, seps: set<char>)
    ensures CountIn(a + b, seps) == CountIn(a, seps) + CountIn(b, seps)
  {
    if a == [] {
      assert a + b == b;
    } else {
      assert (a + b)[1..] == a[1..] + b;
      CountInAppend(a[1..], b, seps);
    }
  }

  lemma {:induction false} CountInNone(s: string, seps: set<char>)
    requires forall k | 0 <= k < |s| :: s[k] !in seps
    ensures CountIn(s, seps) == 0
  {
    if s != [] {
      CountInNone(s[1..], seps);
    }
  }

  /** There is one piece more than there are separators, and no piece holds a separator. */
  lemma {:induction false} SplitPieces(s: string, seps: set<char>)
    ensures |Split(s, seps)| == CountIn(s, seps) + 1
    ensures forall j, k | 0 <= j < |Split(s, seps)| && 0 <= k < |Split(s, seps)[j]| :: Split(s, seps)[j][k] !in seps
    decreases |s|
  {
    match FirstIndexIn(s, seps)
    case None =>
      CountInNone(s, seps);
    case Some(i) =>
      var piece, rest := s[..i], s[i + 1..];
      assert s == piece + [s[i]] + rest;
      SplitPieces(rest, seps);
      CountInNone(piece, seps);
      CountInAppend(piece + [s[i]], rest, seps);
      CountInAppend(piece, [s[i]], seps);
      assert CountIn([s[i]], seps) == 1;
  }
  /** `sep.join(parts)`. */
  function Join(parts: seq<string>, sep: char): string
    requires |parts| >= 1
    decreases |parts|
  {
    if |parts| == 1 then parts[0] else parts[0] + [sep] + Join(parts[1..], sep)
  }

  /** Joining the pieces of a split at one separator with that separator gives back the text. */
  lemma {:induction false} SplitJoin(s: string, sep: char)
    ensures Join(Split(s, {sep}), sep) == s
    decreases |s|
  {
    match FirstIndexIn(s, {sep})
    case None =>
    case Some(i) =>
      var piece, rest := s[..i], s[i + 1..];
      assert s == piece + [sep] + rest;
      var tail := Split(rest, {sep});
      SplitJoin(rest, sep);
      JoinCons(piece, tail, sep);
  }

  lemma JoinCons(piece: string, tail: seq<string>, sep: char)
    requires |tail| >= 1
    ensures Join([piece] + tail, sep) == piece + [sep] + Join(tail, sep)
  {
    assert ([piece] + tail)[1..] == tail;
  }


  /** Splitting text that starts with a separator-free piece and a separator peels that piece off. */
  lemma SplitFirst(piece: string, sep: char, rest: string, seps: set<char>)
    requires sep in seps
    requires forall k | 0 <= k < |piece| :: piece[k] !in seps
    ensures Split(piece + [sep] + rest, seps) == [piece] + Split(rest, seps)
  {
    var s := piece + [sep] + rest;
    assert s[|piece|] == sep;
    assert FirstIndexIn(s, seps) == Some(|piece|);
    assert s[..|piece|] == piece && s[|piece| + 1..] == rest;
  }

  /** Four separator-free pieces joined by a separator split back into those pieces. */
  lemma SplitFour(a: string, b: string, c: string, d: string, sep: char, seps: set<char>)
    requires sep in seps
    requires forall k | 0 <= k < |a| :: a[k] !in seps
    requires forall k | 0 <= k < |b| :: b[k] !in seps
    requires forall k | 0 <= k < |c| :: c[k] !in seps
    requires forall k | 0 <= k < |d| :: d[k] !in seps
    ensures Split(a + [sep] + (b + [sep] + (c + [sep] + d)), seps) == [a, b, c, d]
  {
    var x := b + [sep] + (c + [sep] + d);
    SplitThree(b, c, d, sep, seps);
    SplitFirst(a, sep, x, seps);
  }

  lemma SplitThree(b: string, c: string, d: string, sep: char, seps: set<char>)
    requires sep in seps
    requires forall k | 0 <= k < |b| :: b[k] !in seps
    requires forall k | 0 <= k < |c| :: c[k] !in seps
    requires forall k | 0 <= k < |d| :: d[k] !in seps
    ensures Split(b + [sep] + (c + [sep] + d), seps) == [b, c, d]
  {
    SplitTwo(c, d, sep, seps);
    SplitFirst(b, sep, c + [sep] + d, seps);
  }

  lemma SplitTwo(c: string, d: string, sep: char, seps: set<char>)
    requires sep in seps
    requires forall k | 0 <= k < |c| :: c[k] !in seps
    requires forall k | 0 <= k < |d| :: d[k] !in seps
    ensures Split(c + [sep] + d, seps) == [c, d]
  {
    SplitNone(d, seps);
    SplitFirst(c, sep, d, seps);
  }

  /** Text without a separator is a single piece. */
  lemma SplitNone(s: string, seps: set<char>)
    requires forall k | 0 <= k < |s| :: s[k] !in seps
    ensures Split(s, seps) == [s]
  {
    assert FirstIndexIn(s, seps) == None;
  }

  function DigitValue(c: char): nat {
    if IsDigit(c) then c as int - '0' as int else 0
  }

  function DigitChar(d: nat): (c: char)
    requires d < 10
    ensures IsDigit(c) && DigitValue(c) == d
  {
    ('0' as int + d) as char
  }

  /** Python's `int(s)` for a string of ASCII decimal digits. */
  function DecimalValue(s: string): nat {
    if s == [] then 0 else DecimalValue(s[..|s| - 1]) * 10 + DigitValue(s[|s| - 1])
  }

  /** Python's `str(n)`, the decimal text of a natural number. */
  function NatToString(n: nat): (s: string)
    ensures s != [] && AllDigits(s)
  {
    if n < 10 then [DigitChar(n)] else NatToString(n / 10) + [DigitChar(n % 10)]
  }

  /** `int(str(n)) == n`. */
  lemma {:induction false} DecimalRoundTrip(n: nat)
    ensures DecimalValue(NatToString(n)) == n
  {
    if n >= 10 {
      DecimalRoundTrip(n / 10);
      var s := NatToString(n);
      assert s[..|s| - 1] == NatToString(n / 10);
    }
  }
}
