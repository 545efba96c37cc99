/** The C and GLib string primitives the launcher's control-file logic rests on:
    NUL termination, `g_ascii_isspace`, `g_strchug`, `g_strchomp`, `g_strstrip`,
    `strcmp`, `g_strcmp0`, and the launcher's own `trimmed_strcmp0`.
    Characters stand for the bytes of the C strings. */
module GString {
  import opened Wrappers

  /** True iff `s` holds no NUL character. */
  predicate NoNul(s: string) {
    forall i :: 0 <= i < |s| ==> s[i] != '\0'
  }

  /** A C string: the characters before the terminating NUL. */
  type CStr = s: string | NoNul(s) witness ""

  /** What C string functions see of a buffer: everything before its first NUL. */
  function AsCStr(buf: string): (r: CStr)
    ensures |r| <= |buf| && r == buf[..|r|]
    ensures |r| < |buf| ==> buf[|r|] == '\0'
  {
    if |buf| == 0 || buf[0] == '\0' then ""
    else
      var rest := AsCStr(buf[1..]);
      assert NoNul([buf[0]] + rest) by {
        forall i | 0 <= i < |rest| + 1
          ensures ([buf[0]] + rest)[i] != '\0'
        {
          if i > 0 { assert ([buf[0]] + rest)[i] == rest[i - 1]; }
        }
      }
      [buf[0]] + rest
  }

  /** A buffer without NUL is read back whole. */
  lemma {:induction false} AsCStrOfCStr(s: CStr)
    ensures AsCStr(s) == s
  {
    if |s| > 0 {
      AsCStrOfCStr(s[1..]);
      assert s == [s[0]] + s[1..];
    }
  }

  /** `g_ascii_isspace`: space, tab, line feed, form feed and carriage return.
      GLib's ASCII table does not class the vertical tab (0x0B) as space. */
  predicate IsSpace(c: char) {
    c == ' ' || c == '\t' || c == '\n' || c == '\r' || c as int == 0x0C
  }

  predicate AllSpace(s: string) {
    forall i :: 0 <= i < |s| ==> IsSpace(s[i])
  }

  /** Neither the first nor the last character is white space. */
  predicate NoEdgeSpace(s: string) {
    |s| == 0 || (!IsSpace(s[0]) && !IsSpace(s[|s| - 1]))
  }

  /** Where g_strchug's forward scan stops: the length of the leading white space. */
  function LeadingSpace(s: string): (n: nat)
    ensures n <= |s|
    ensures forall k :: 0 <= k < n ==> IsSpace(s[k])
    ensures n < |s| ==> !IsSpace(s[n])
  {
    if |s| > 0 && IsSpace(s[0]) then
      var n := 1 + LeadingSpace(s[1..]);
      assert forall k :: 1 <= k < n ==> s[k] == s[1..][k - 1];
      n
    else 0
  }

  /** Where g_strchomp's backward scan stops: the start of the trailing white space. */
  function TrailingSpaceStart(s: string): (j: nat)
    ensures j <= |s|
    ensures forall k :: j <= k < |s| ==> IsSpace(s[k])
    ensures j > 0 ==> !IsSpace(s[j - 1])
  {
    if |s| > 0 && IsSpace(s[|s| - 1]) then
      var j := TrailingSpaceStart(s[..|s| - 1]);
      assert forall k :: j <= k < |s| - 1 ==> s[k] == s[..|s| - 1][k];
      j
    else |s|
  }

  /** `g_strchug`: removes leading white space. */
  function Chug(s: string): string {
    s[LeadingSpace(s)..]
  }

  /** `g_strchomp`: removes trailing white space. */
  function Chomp(s: string): string {
    s[..TrailingSpaceStart(s)]
  }

  /** `g_strstrip`, which GLib defines as `g_strchomp (g_strchug (s))`. */
  function Strip(s: string): (r: string)
    ensures |r| <= |s|
    ensures NoEdgeSpace(r)
    ensures NoNul(s) ==> NoNul(r)
  {
    var i := LeadingSpace(s);
    var c := Chug(s);
    var j := TrailingSpaceStart(c);
    assert j > 0 ==> c[0] == s[i] && c[j - 1] == s[i + j - 1];
    assert forall k :: 0 <= k < j ==> Chomp(c)[k] == s[i + k];
    Chomp(c)
  }

  /** Strip's result is the one slice of `s` that has only white space around it and
      none at its own edges: any such slice `s[i..j]` is exactly what Strip returns. */
  lemma {:induction false} StripIsUniqueSlice(s: string, i: nat, j: nat)
    requires i <= j <= |s|
    requires AllSpace(s[..i]) && AllSpace(s[j..])
    requires NoEdgeSpace(s[i..j])
    ensures Strip(s) == s[i..j]
  {
    assert forall k :: 0 <= k < i ==> IsSpace(s[k]) by {
      forall k | 0 <= k < i ensures IsSpace(s[k]) { assert s[..i][k] == s[k]; }
    }
    assert forall k :: j <= k < |s| ==> IsSpace(s[k]) by {
      forall k | j <= k < |s| ensures IsSpace(s[k]) { assert s[j..][k - j] == s[k]; }
    }
    var a := LeadingSpace(s);
    var c := s[a..];
    var b := TrailingSpaceStart(c);
    if i == j {
      assert a == |s|;
    } else {
      assert !IsSpace(s[i]) by { assert s[i..j][0] == s[i]; }
      assert !IsSpace(s[j - 1]) by { assert s[i..j][j - 1 - i] == s[j - 1]; }
      assert a == i;
      assert c[j - i - 1] == s[j - 1];
      assert b == j - i;
      PrefixOfSuffix(s, i, j);
    }
  }

  /** Only white space lies around Strip's result, which is a slice of `s`. */
  lemma StripIsSlice(s: string)
    ensures exists i :: 0 <= i <= |s| - |Strip(s)|
                        && Strip(s) == s[i..i + |Strip(s)|]
                        && AllSpace(s[..i]) && AllSpace(s[i + |Strip(s)|..])
  {
    var i := LeadingSpace(s);
    var c := s[i..];
    var j := TrailingSpaceStart(c);
    assert Strip(s) == s[i..i + j];
    assert AllSpace(s[..i]) by {
      forall k | 0 <= k < i ensures IsSpace(s[..i][k]) { assert s[..i][k] == s[k]; }
    }
    var after := s[i + j..];
    assert AllSpace(after) by {
      forall k | 0 <= k < |after| ensures IsSpace(after[k]) {
        assert after[k] == c[j + k];
      }
    }
  }

  lemma PrefixOfSuffix(s: string, i: nat, j: nat)
    requires i <= j <= |s|
    ensures s[i..][..j - i] == s[i..j]
  {
  }

  /** A string with no white space at its edges is its own stripped form. */
  lemma StripNoEdgeSpace(s: string)
    requires NoEdgeSpace(s)
    ensures Strip(s) == s
  {
    assert s[..0] == [] && s[|s|..] == [];
    assert s[0..|s|] == s;
    StripIsUniqueSlice(s, 0, |s|);
  }

  /** White space added around a word is stripped off again. */
  lemma StripPadded(lead: string, word: string, trail: string)
    requires AllSpace(lead) && AllSpace(trail) && NoEdgeSpace(word)
    ensures Strip(lead + word + trail) == word
  {
    var s := lead + word + trail;
    assert s[..|lead|] == lead;
    assert s[|lead| + |word|..] == trail;
    assert s[|lead|..|lead| + |word|] == word;
    StripIsUniqueSlice(s, |lead|, |lead| + |word|);
  }

  /** Stripping twice is stripping once. */
  lemma StripIdempotent(s: string)
    ensures Strip(Strip(s)) == Strip(s)
  {
    StripNoEdgeSpace(Strip(s));
  }

  /** `strcmp` on two C strings: the sign of the first difference, reading the
      terminating NUL as smaller than every other character. Only the sign is
      specified by C, so the result is -1, 0 or 1. */
  function Strcmp(a: CStr, b: CStr): (r: int)
    ensures -1 <= r <= 1
    ensures r == 0 <==> a == b
  {
    if |a| == 0 && |b| == 0 then 0
    else if |a| == 0 then -1
    else if |b| == 0 then 1
    else if a[0] < b[0] then -1
    else if a[0] > b[0] then 1
    else
      var r := Strcmp(a[1..], b[1..]);
      assert a == [a[0]] + a[1..] && b == [b[0]] + b[1..];
      r
  }

  /** Swapping the arguments of strcmp flips the sign of its result. */
  lemma {:induction false} StrcmpAntisymmetric(a: CStr, b: CStr)
    ensures Strcmp(b, a) == -Strcmp(a, b)
  {
    if |a| > 0 && |b| > 0 && a[0] == b[0] {
      StrcmpAntisymmetric(a[1..], b[1..]);
    }
  }

  /** `g_strcmp0`: strcmp that also accepts NULL, which sorts before every string. */
  function Strcmp0(a: Option<CStr>, b: Option<CStr>): (r: int)
    ensures -1 <= r <= 1
    ensures r == 0 <==> a == b
    ensures a.None? && b.Some? ==> r < 0
    ensures a.Some? && b.None? ==> r > 0
  {
    match (a, b)
    case (None, None) => 0
    case (None, Some(_)) => -1
    case (Some(_), None) => 1
    case (Some(x), Some(y)) => Strcmp(x, y)
  }

  /** The stripped copy of a nullable C string; NULL stays NULL. */
  function StripCopy(s: Option<CStr>): (r: Option<CStr>)
    ensures r.None? <==> s.None?
  {
    match s
    case None => None
    case Some(x) => Some(Strip(x))
  }

  /** Equality up to surrounding white space, with NULL equal only to NULL. */
  predicate TrimmedEqual(a: Option<CStr>, b: Option<CStr>) {
    (a.None? && b.None?) || (a.Some? && b.Some? && Strip(a.value) == Strip(b.value))
  }

  /** `trimmed_strcmp0`: compares stripped copies of both arguments with g_strcmp0.
      The arguments themselves are values here, so they cannot be modified. */
  function TrimmedStrcmp0(a: Option<CStr>, b: Option<CStr>): (r: int)
    ensures r == 0 <==> TrimmedEqual(a, b)
    ensures a.None? && b.Some? ==> r < 0
    ensures a.Some? && b.None? ==> r > 0
  {
    Strcmp0(StripCopy(a), StripCopy(b))
  }

  /** Swapping the arguments of trimmed_strcmp0 flips the sign of its result. */
  lemma TrimmedStrcmp0Antisymmetric(a: Option<CStr>, b: Option<CStr>)
    ensures TrimmedStrcmp0(b, a) == -TrimmedStrcmp0(a, b)
  {
    if a.Some? && b.Some? {
      StrcmpAntisymmetric(Strip(a.value), Strip(b.value));
    }
  }
}
