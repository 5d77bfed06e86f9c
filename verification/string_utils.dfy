/** String utilities of the fixture program: ASCII case mapping, whitespace
    trimming and prefix/suffix tests. A C++ `std::string` is modelled as a
    `string` (a sequence of characters); positions are natural numbers, and the
    library's `npos` sentinel is the `Npos` case of `Pos`. */
module StringUtils {

  /** A position returned by `find_first_not_of` / `find_last_not_of`:
      either an index into the string or `npos` (nothing found). */
  datatype Pos = At(index: nat) | Npos

  /** The character set that `trim` strips from both ends. */
  const Whitespace: string := " \t\n\r"

  predicate IsAsciiLower(c: char) { 'a' <= c <= 'z' }

  predicate IsAsciiUpper(c: char) { 'A' <= c <= 'Z' }

  /** True when every character of `s` belongs to `chars`. */
  predicate AllIn(s: string, chars: string)
  {
    forall k :: 0 <= k < |s| ==> s[k] in chars
  }

  // ---------------------------------------------------------------------------
  // Case mapping (`std::toupper` / `std::tolower` in the "C" locale)
  // ---------------------------------------------------------------------------

  /** `std::tolower` of one character: only 'A'..'Z' change, each to the
      lower-case letter at the same place in the alphabet. */
  function LowerChar(c: char): (l: char)
    ensures !IsAsciiUpper(l)
    ensures !IsAsciiUpper(c) ==> l == c
    ensures IsAsciiUpper(c) ==> IsAsciiLower(l) && l as int == c as int + ('a' as int - 'A' as int)
  {
    if IsAsciiUpper(c) then (c as int + ('a' as int - 'A' as int)) as char else c
  }

  /** `std::toupper` of one character: only 'a'..'z' change, and a lower-case
      letter becomes the upper-case letter whose lower-case form it is. */
  function UpperChar(c: char): (u: char)
    ensures !IsAsciiLower(u)
    ensures !IsAsciiLower(c) ==> u == c
    ensures IsAsciiLower(c) ==> IsAsciiUpper(u) && u as int == c as int - ('a' as int - 'A' as int)
    ensures IsAsciiLower(c) ==> LowerChar(u) == c
  {
    if IsAsciiLower(c) then (c as int - ('a' as int - 'A' as int)) as char else c
  }

  /** The string `to_upper` returns: each character mapped by `UpperChar`. */
  function Upper(s: string): (r: string)
  {
    seq(|s|, k requires 0 <= k < |s| => UpperChar(s[k]))
  }

  /** The string `to_lower` returns: each character mapped by `LowerChar`. */
  function Lower(s: string): (r: string)
  {
    seq(|s|, k requires 0 <= k < |s| => LowerChar(s[k]))
  }

  /** `std::transform(buf.begin(), buf.end(), buf.begin(), f)`: overwrite every
      cell of the buffer with `f` of its old content, in place. */
  method Transform(buf: array<char>, f: char -> char)
    modifies buf
    ensures forall k :: 0 <= k < buf.Length ==> buf[k] == f(old(buf[k]))
  {
    var i := 0;
    while i < buf.Length
      invariant 0 <= i <= buf.Length
      invariant forall k :: 0 <= k < i ==> buf[k] == f(old(buf[k]))
      invariant forall k :: i <= k < buf.Length ==> buf[k] == old(buf[k])
    {
      buf[i] := f(buf[i]);
      i := i + 1;
    }
  }

  /** `to_upper`: copy the input into a buffer and upper-case it in place. */
  method ToUpper(input: string) returns (result: string)
    ensures result == Upper(input)
  {
    var buf := new char[|input|](k requires 0 <= k < |input| => input[k]);
    Transform(buf, UpperChar);
    result := buf[..];
  }

  /** `to_lower`: copy the input into a buffer and lower-case it in place. */
  method ToLower(input: string) returns (result: string)
    ensures result == Lower(input)
  {
    var buf := new char[|input|](k requires 0 <= k < |input| => input[k]);
    Transform(buf, LowerChar);
    result := buf[..];
  }

  /** Upper-casing twice is upper-casing once. */
  lemma UpperIdempotent(s: string)
    ensures Upper(Upper(s)) == Upper(s)
  {
  }

  /** Lower-casing twice is lower-casing once. */
  lemma LowerIdempotent(s: string)
    ensures Lower(Lower(s)) == Lower(s)
  {
  }

  /** `to_upper` leaves no ASCII lower-case letter and `to_lower` no ASCII
      upper-case letter; neither touches a character that is not a letter. */
  lemma CaseMappingsClassify(s: string)
    ensures forall k :: 0 <= k < |s| ==> !IsAsciiLower(Upper(s)[k]) && !IsAsciiUpper(Lower(s)[k])
    ensures forall k :: 0 <= k < |s| && !IsAsciiLower(s[k]) && !IsAsciiUpper(s[k]) ==>
      Upper(s)[k] == s[k] && Lower(s)[k] == s[k]
  {
  }

  /** Lower-casing undoes upper-casing up to case: lower(upper(s)) == lower(s). */
  lemma LowerAfterUpper(s: string)
    ensures Lower(Upper(s)) == Lower(s)
  {
  }

  /** Upper-casing undoes lower-casing up to case: upper(lower(s)) == upper(s). */
  lemma UpperAfterLower(s: string)
    ensures Upper(Lower(s)) == Upper(s)
  {
  }

  // ---------------------------------------------------------------------------
  // Searching, slicing and comparing (the `std::string` members trim,
  // starts_with and ends_with are built from)
  // ---------------------------------------------------------------------------

  /** `s.find_first_not_of(chars)`: the first index whose character is not in
      `chars`, or `Npos` when every character is in `chars`. */
  function FindFirstNotOf(s: string, chars: string): (p: Pos)
    ensures p.Npos? <==> AllIn(s, chars)
    ensures p.At? ==> p.index < |s| && s[p.index] !in chars
    ensures p.At? ==> forall k :: 0 <= k < p.index ==> s[k] in chars
  {
    if s == [] then Npos
    else if s[0] !in chars then At(0)
    else
      match FindFirstNotOf(s[1..], chars)
      case Npos => Npos
      case At(k) => At(k + 1)
  }

  /** `s.find_last_not_of(chars)`: the last index whose character is not in
      `chars`, or `Npos` when every character is in `chars`. */
  function FindLastNotOf(s: string, chars: string): (p: Pos)
    ensures p.Npos? <==> AllIn(s, chars)
    ensures p.At? ==> p.index < |s| && s[p.index] !in chars
    ensures p.At? ==> forall k :: p.index < k < |s| ==> s[k] in chars
  {
    if s == [] then Npos
    else if s[|s| - 1] !in chars then At(|s| - 1)
    else FindLastNotOf(s[..|s| - 1], chars)
  }

  /** `s.substr(pos, count)`: at most `count` characters starting at `pos`;
      the library throws `out_of_range` when `pos > s.size()`, which callers
      here never do. */
  function Substr(s: string, pos: nat, count: nat): (r: string)
    requires pos <= |s|
    ensures |r| == if count <= |s| - pos then count else |s| - pos
    ensures forall k :: 0 <= k < |r| ==> r[k] == s[pos + k]
  {
    if count <= |s| - pos then s[pos..pos + count] else s[pos..]
  }

  /** `a.compare(b)`: lexicographic three-way comparison, negative when `a`
      orders first (in particular when it is a proper prefix of `b`), zero
      exactly when the strings are equal. */
  function Compare(a: string, b: string): (c: int)
    ensures -1 <= c <= 1
    ensures c == 0 <==> a == b
    ensures |a| < |b| && a == b[..|a|] ==> c == -1
  {
    if a == [] && b == [] then 0
    else if a == [] then -1
    else if b == [] then 1
    else if a[0] < b[0] then -1
    else if b[0] < a[0] then 1
    else
      var c := Compare(a[1..], b[1..]);
      assert a == [a[0]] + a[1..] && b == [b[0]] + b[1..];
      c
  }

  // ---------------------------------------------------------------------------
  // trim
  // ---------------------------------------------------------------------------

  /** `s[i..j]` is what is left of `s` once its whitespace ends are cut off:
      everything before `i` and from `j` on is whitespace, and a non-empty
      slice starts and ends with a character that is not. */
  predicate TrimSlice(s: string, i: nat, j: nat)
  {
    i <= j <= |s| &&
    AllIn(s[..i], Whitespace) && AllIn(s[j..], Whitespace) &&
    (i < j ==> s[i] !in Whitespace && s[j - 1] !in Whitespace)
  }

  /** `trim`: the input without its leading and trailing characters from
      `Whitespace`; the empty string when there is nothing else, and otherwise
      a string whose first and last characters are not whitespace. That it is
      the slice described by `TrimSlice` is `TrimIsSlice` below. */
  function Trim(input: string): (r: string)
    ensures r == [] <==> AllIn(input, Whitespace)
    ensures r != [] ==> r[0] !in Whitespace && r[|r| - 1] !in Whitespace
  {
    match FindFirstNotOf(input, Whitespace)
    case Npos =>
      assert input == input[0..0] + input[0..];
      ""
    case At(start) =>
      var end := FindLastNotOf(input, Whitespace).index;
      var r := Substr(input, start, end - start + 1);
      assert r == input[start..end + 1];
      r
  }

  /** Trimming a trimmed string changes nothing. */
  lemma TrimIdempotent(s: string)
    ensures Trim(Trim(s)) == Trim(s)
  {
  }

  /** A string that neither starts nor ends with whitespace is its own trim. */
  lemma TrimOfTrimmed(r: string)
    requires r != [] && r[0] !in Whitespace && r[|r| - 1] !in Whitespace
    ensures Trim(r) == r
  {
    var first := FindFirstNotOf(r, Whitespace);
    var last := FindLastNotOf(r, Whitespace);
    assert first == At(0);
    assert last == At(|r| - 1);
    assert r[0..|r|] == r;
  }

  /** The trim of `s` is the one slice `s[i..j]` whose surroundings are all
      whitespace and whose ends are not (or, when `s` is all whitespace, the
      empty slice): trimming is fully determined by this description. */
  lemma {:induction false} TrimCharacterized(s: string, i: nat, j: nat)
    requires TrimSlice(s, i, j)
    ensures Trim(s) == s[i..j]
  {
    if i == j {
      forall k | 0 <= k < |s| ensures s[k] in Whitespace {
        if k < i { assert s[..i][k] == s[k]; } else { assert s[j..][k - j] == s[k]; }
      }
    } else {
      var first := FindFirstNotOf(s, Whitespace);
      var last := FindLastNotOf(s, Whitespace);
      assert first.At? && last.At?;
      assert first.index == i;
      assert last.index == j - 1;
    }
  }

  lemma AllInConcat(a: string, b: string, chars: string)
    requires AllIn(a, chars) && AllIn(b, chars)
    ensures AllIn(a + b, chars)
  {
  }

  /** Padding with whitespace on either side does not change the trim. */
  lemma {:induction false} TrimPadded(p: string, t: string, q: string)
    requires AllIn(p, Whitespace) && AllIn(q, Whitespace)
    ensures Trim(p + t + q) == Trim(t)
  {
    var a, b := PaddedTrimSlice(p, t, q);
    TrimCharacterized(p + t + q, a, b);
  }

  /** The trim slice of `t`, shifted by |p|, is a trim slice of `p + t + q`. */
  lemma PaddedTrimSlice(p: string, t: string, q: string) returns (a: nat, b: nat)
    requires AllIn(p, Whitespace) && AllIn(q, Whitespace)
    ensures TrimSlice(p + t + q, a, b) && (p + t + q)[a..b] == Trim(t)
  {
    var i, j := TrimBounds(t);
    PaddedSlices(p + t + q, p, t, q, i, j);
    a, b := |p| + i, |p| + j;
  }

  /** The slice bounds of the trim of `t`. */
  lemma TrimBounds(t: string) returns (i: nat, j: nat)
    ensures TrimSlice(t, i, j) && Trim(t) == t[i..j]
  {
    match FindFirstNotOf(t, Whitespace)
    case Npos =>
      i, j := 0, 0;
      assert t[..0] == [] && t[0..] == t;
    case At(first) =>
      i, j := first, FindLastNotOf(t, Whitespace).index + 1;
      assert t[i..j] == Substr(t, i, j - i);
  }

  /** The trim of `s` is a contiguous slice of `s` cut out as `TrimSlice`
      describes: only whitespace is dropped before and after it. */
  lemma TrimIsSlice(s: string)
    ensures exists i: nat, j: nat :: TrimSlice(s, i, j) && Trim(s) == s[i..j]
  {
    var i, j := TrimBounds(s);
  }

  /** Slicing `s = p + t + q` at positions shifted by |p| slices `t`, and a
      trim slice of `t` is one of `s` when `p` and `q` are whitespace. */
  lemma PaddedSlices(s: string, p: string, t: string, q: string, i: nat, j: nat)
    requires s == p + t + q
    requires AllIn(p, Whitespace) && AllIn(q, Whitespace)
    requires TrimSlice(t, i, j)
    ensures TrimSlice(s, |p| + i, |p| + j) && s[|p| + i..|p| + j] == t[i..j]
  {
    assert s[..|p| + i] == p + t[..i];
    assert s[|p| + j..] == t[j..] + q;
    AllInConcat(p, t[..i], Whitespace);
    AllInConcat(t[j..], q, Whitespace);
    assert s[|p| + i..|p| + j] == t[i..j];
  }

  // ---------------------------------------------------------------------------
  // starts_with / ends_with
  // ---------------------------------------------------------------------------

  /** `starts_with`: false when the prefix is longer than the string, otherwise
      whether the first |prefix| characters are the prefix. */
  function StartsWith(str: string, prefix: string): (r: bool)
    ensures r <==> |prefix| <= |str| && str[..|prefix|] == prefix
  {
    if |prefix| > |str| then false
    else Compare(Substr(str, 0, |prefix|), prefix) == 0
  }

  /** `ends_with`: false when the suffix is longer than the string, otherwise
      whether the last |suffix| characters are the suffix. The guard keeps the
      start index |str| - |suffix| from going below zero. */
  function EndsWith(str: string, suffix: string): (r: bool)
    ensures r <==> |suffix| <= |str| && str[|str| - |suffix|..] == suffix
  {
    if |suffix| > |str| then false
    else Compare(Substr(str, |str| - |suffix|, |suffix|), suffix) == 0
  }

  /** Every string starts and ends with the empty string. */
  lemma EmptyAffixes(s: string)
    ensures StartsWith(s, "") && EndsWith(s, "")
  {
  }

  /** `starts_with(s, p)` holds exactly when `s` is `p` followed by something. */
  lemma StartsWithConcat(s: string, p: string)
    ensures StartsWith(s, p) <==> |p| <= |s| && s == p + s[|p|..]
  {
  }

  /** `ends_with(s, x)` holds exactly when `s` is something followed by `x`. */
  lemma EndsWithConcat(s: string, x: string)
    ensures EndsWith(s, x) <==> |x| <= |s| && s == s[..|s| - |x|] + x
  {
  }

  /** The string read back to front. */
  function Reverse(s: string): (r: string)
    ensures |r| == |s|
    ensures forall k :: 0 <= k < |s| ==> r[k] == s[|s| - 1 - k]
  {
    seq(|s|, k requires 0 <= k < |s| => s[|s| - 1 - k])
  }

  /** `ends_with` is `starts_with` on the reversed strings. */
  lemma EndsWithIsReversedStartsWith(s: string, x: string)
    ensures EndsWith(s, x) <==> StartsWith(Reverse(s), Reverse(x))
  {
    var rs, rx := Reverse(s), Reverse(x);
    if |x| <= |s| {
      if EndsWith(s, x) {
        forall k | 0 <= k < |x| ensures rs[..|x|][k] == rx[k] {
          assert s[|s| - |x|..][|x| - 1 - k] == x[|x| - 1 - k];
        }
        assert rs[..|x|] == rx;
      }
      if StartsWith(rs, rx) {
        forall k | 0 <= k < |x| ensures s[|s| - |x|..][k] == x[k] {
          assert rs[..|x|][|x| - 1 - k] == rx[|x| - 1 - k];
        }
        assert s[|s| - |x|..] == x;
      }
    }
  }
}
