/** The authorisation gate: pulling the token out of the Authorization value
    (`verify_jwt`'s string handling, a loose take on the `Bearer` scheme of
    section 2.1 of RFC 6750), reading the claimed id, and `authenticate`'s
    comparison with the identity a request claims. Signature checking is
    the `decode` parameter: the JWT library is not part of this model. */
module Auth {
  import opened Wrappers
  import opened Digits

  newtype byte = x: int | 0 <= x < 256

  /** Unicode White_Space, the set `str::trim` removes. */
  predicate IsWhitespace(c: char) {
    || ('\t' <= c <= '\r') || c == ' ' || c == '\U{85}' || c == '\U{A0}' || c == '\U{1680}'
    || ('\U{2000}' <= c <= '\U{200A}') || c == '\U{2028}' || c == '\U{2029}'
    || c == '\U{202F}' || c == '\U{205F}' || c == '\U{3000}'
  }

  predicate AllWhitespace(s: string) {
    forall i :: 0 <= i < |s| ==> IsWhitespace(s[i])
  }

  /** Free of whitespace at both ends. */
  predicate Trimmed(s: string) {
    s == [] || (!IsWhitespace(s[0]) && !IsWhitespace(s[|s| - 1]))
  }

  /** The length of the whitespace run `trim_start` removes. */
  function LeadingWhitespace(s: string): (n: nat)
    ensures n <= |s|
    ensures forall i :: 0 <= i < n ==> IsWhitespace(s[i])
    ensures n < |s| ==> !IsWhitespace(s[n])
  {
    if s != [] && IsWhitespace(s[0]) then 1 + LeadingWhitespace(s[1..]) else 0
  }

  /** The length of the whitespace run `trim_end` removes. */
  function TrailingWhitespace(s: string): (n: nat)
    ensures n <= |s|
    ensures forall i :: |s| - n <= i < |s| ==> IsWhitespace(s[i])
    ensures n < |s| ==> !IsWhitespace(s[|s| - n - 1])
  {
    if s != [] && IsWhitespace(s[|s| - 1]) then 1 + TrailingWhitespace(s[..|s| - 1]) else 0
  }

  /** `str::trim`: the slice left after removing whitespace at both ends;
      what it drops on either side is whitespace. */
  function Trim(s: string): (r: string)
    ensures Trimmed(r)
    ensures var a := LeadingWhitespace(s); a + |r| <= |s| && r == s[a..a + |r|]
    ensures var a := LeadingWhitespace(s);
      forall i :: 0 <= i < |s| && (i < a || a + |r| <= i) ==> IsWhitespace(s[i])
  {
    var a := LeadingWhitespace(s);
    if a == |s| then [] else s[a..|s| - TrailingWhitespace(s)]
  }

  /** Trimming removes exactly the whitespace around a trimmed text. */
  lemma TrimPadded(a: string, t: string, b: string)
    requires AllWhitespace(a) && AllWhitespace(b) && Trimmed(t)
    ensures Trim(a + t + b) == t
  {
    var s := a + t + b;
    if t == [] {
      LeadingOf(s, []);
      assert s + [] == s;
    } else {
      assert s == a + (t + b);
      LeadingOf(a, t + b);
      assert s == (a + t) + b;
      TrailingOf(a + t, b);
      assert s[|a|..|s| - |b|] == t;
    }
  }

  lemma {:induction false} LeadingOf(a: string, v: string)
    requires AllWhitespace(a) && (v == [] || !IsWhitespace(v[0]))
    ensures LeadingWhitespace(a + v) == |a|
    decreases |a|
  {
    if a == [] {
      assert a + v == v;
    } else {
      assert (a + v)[1..] == a[1..] + v;
      LeadingOf(a[1..], v);
    }
  }

  lemma {:induction false} TrailingOf(v: string, b: string)
    requires AllWhitespace(b) && (v == [] || !IsWhitespace(v[|v| - 1]))
    ensures TrailingWhitespace(v + b) == |b|
    decreases |b|
  {
    if b == [] {
      assert v + b == v;
    } else {
      assert (v + b)[..|v + b| - 1] == v + b[..|b| - 1];
      TrailingOf(v, b[..|b| - 1]);
    }
  }

  lemma TrimIdempotent(s: string)
    ensures Trim(Trim(s)) == Trim(s)
  {
    TrimPadded([], Trim(s), []);
    assert [] + Trim(s) + [] == Trim(s);
  }

  /** `pat` starts at index `k` of `s`. */
  predicate OccursAt(s: string, pat: string, k: nat) {
    k + |pat| <= |s| && s[k..k + |pat|] == pat
  }

  predicate Contains(s: string, pat: string) {
    exists k: nat | k <= |s| :: OccursAt(s, pat, k)
  }

  /** The first occurrence of `pat` at or after `from`. */
  function Find(s: string, pat: string, from: nat): (r: Option<nat>)
    ensures r.Some? ==> from <= r.value && OccursAt(s, pat, r.value)
    ensures r.Some? ==> forall k: nat :: from <= k < r.value ==> !OccursAt(s, pat, k)
    ensures r.None? ==> forall k: nat :: from <= k ==> !OccursAt(s, pat, k)
    decreases |s| - from
  {
    if from + |pat| > |s| then None
    else if OccursAt(s, pat, from) then Some(from)
    else Find(s, pat, from + 1)
  }

  const Bearer: string := "Bearer"

  /** The token `verify_jwt` hands to the decoder: the second piece of
      `split("Bearer")` (the text after the first "Bearer", up to the next
      one), or the whole value when it holds no "Bearer"; then trimmed. */
  function ExtractToken(header: string): (t: string)
    ensures Trimmed(t) && !Contains(t, Bearer)
    ensures !Contains(header, Bearer) ==> t == Trim(header)
  {
    match Find(header, Bearer, 0)
    case None =>
      var t := Trim(header);
      NoOccurrenceInSlice(header, Bearer, 0, |header|);
      NoOccurrenceInTrim(header[0..|header|], Bearer);
      assert header[0..|header|] == header;
      t
    case Some(i) =>
      var stop := match Find(header, Bearer, i + 6) case Some(j) => j case None => |header|;
      var piece := header[i + 6..stop];
      NoOccurrenceInSlice(header, Bearer, i + 6, stop);
      NoOccurrenceInTrim(piece, Bearer);
      Trim(piece)
  }

  /** An occurrence inside a slice is an occurrence in the whole. */
  lemma OccurrenceInSlice(s: string, pat: string, a: nat, b: nat, k: nat)
    requires a <= b <= |s| && OccursAt(s[a..b], pat, k)
    ensures OccursAt(s, pat, a + k) && a + k + |pat| <= b
  {
    var w := s[a..b];
    assert k + |pat| <= |w| && w[k..k + |pat|] == pat;
    forall i | 0 <= i < |pat|
      ensures pat[i] == s[a + k..a + k + |pat|][i]
    {
      assert pat[i] == w[k + i];
    }
  }

  /** A slice that no occurrence of `pat` fits inside holds none. */
  lemma NoOccurrenceInSlice(s: string, pat: string, a: nat, b: nat)
    requires a <= b <= |s|
    requires forall k: nat :: a <= k && k + |pat| <= b ==> !OccursAt(s, pat, k)
    ensures !Contains(s[a..b], pat)
  {
    forall k: nat | k <= |s[a..b]|
      ensures !OccursAt(s[a..b], pat, k)
    {
      if OccursAt(s[a..b], pat, k) {
        OccurrenceInSlice(s, pat, a, b, k);
      }
    }
  }

  lemma NoOccurrenceInTrim(s: string, pat: string)
    requires !Contains(s, pat)
    ensures !Contains(Trim(s), pat)
  {
    var t := Trim(s);
    var a := LeadingWhitespace(s);
    assert t == s[a..a + |t|];
    forall k: nat | k <= |t|
      ensures !OccursAt(t, pat, k)
    {
      if OccursAt(t, pat, k) {
        OccurrenceInSlice(s, pat, a, a + |t|, k);
      }
    }
  }

  /** `Find` lands on the first occurrence at or after `from`. */
  lemma FindIs(s: string, pat: string, from: nat, j: nat)
    requires from <= j && OccursAt(s, pat, j)
    requires forall k: nat :: from <= k < j ==> !OccursAt(s, pat, k)
    ensures Find(s, pat, from) == Some(j)
  {
  }

  lemma FindNone(s: string, pat: string, from: nat)
    requires forall k: nat :: from <= k ==> !OccursAt(s, pat, k)
    ensures Find(s, pat, from) == None
  {
  }

  /** In "Bearer " + t, with no "Bearer" inside t, the only occurrence is
      the scheme name itself. */
  lemma OnlySchemeOccurrence(t: string)
    requires !Contains(t, Bearer)
    ensures Find(Bearer + " " + t, Bearer, 0) == Some(0)
    ensures Find(Bearer + " " + t, Bearer, 6) == None
  {
    var h := Bearer + " " + t;
    assert h[0..6] == Bearer;
    FindIs(h, Bearer, 0, 0);
    assert h[7..7 + |t|] == t;
    forall k: nat | 6 <= k
      ensures !OccursAt(h, Bearer, k)
    {
      if k == 6 {
        SpaceBlocks(h, 6, 6);
      } else if k + 6 <= |h| {
        InsideCopy(h, t, 7, k);
      }
    }
    FindNone(h, Bearer, 6);
  }

  /** `ExtractToken` takes the text from after the first "Bearer" at `i`
      up to `stop`, the next occurrence or the end. */
  lemma ExtractBetween(h: string, i: nat, stop: nat)
    requires Find(h, Bearer, 0) == Some(i)
    requires Find(h, Bearer, i + 6) == Some(stop) || (Find(h, Bearer, i + 6) == None && stop == |h|)
    ensures i + 6 <= stop <= |h| && ExtractToken(h) == Trim(h[i + 6..stop])
  {
  }

  /** Regrouping steps on concatenations, kept as separate lemmas: as
      inline assertions they make the solver's work on the callers several
      times larger. */
  lemma Between(a: string, m: string, b: string)
    ensures (a + m + b)[|a|..|a| + |m|] == m
  {
  }

  lemma Regroup(a: string, b: string, c: string, d: string, e: string, f: string)
    ensures a + b + c + d + e + f == a + (b + c + d) + (e + f)
  {
  }

  lemma Regroup3(a: string, b: string, c: string)
    ensures a + b + c == a + (b + c)
  {
  }

  lemma NoEmptyTail(a: string)
    ensures a + [] == a
  {
  }

  lemma TrimSpaces(t: string, before: string, after: string)
    requires Trimmed(t) && (before == " " || before == []) && (after == " " || after == [])
    ensures Trim(before + t + after) == t
  {
    TrimPadded(before, t, after);
  }

  /** A value in the scheme's own form, "Bearer " then the token, yields the
      token. */
  lemma ExtractSchemeForm(t: string)
    requires Trimmed(t) && !Contains(t, Bearer)
    ensures ExtractToken(Bearer + " " + t) == t
  {
    var h := Bearer + " " + t;
    OnlySchemeOccurrence(t);
    ExtractBetween(h, 0, |h|);
    Regroup3(Bearer, " ", t);
    Between(Bearer, " " + t, []);
    NoEmptyTail(h);
    TrimSpaces(t, " ", []);
    NoEmptyTail(" " + t);
  }

  /** A bare token, which the service also accepts, yields itself. */
  lemma ExtractBareToken(t: string)
    requires Trimmed(t) && !Contains(t, Bearer)
    ensures ExtractToken(t) == t
  {
    TrimPadded([], t, []);
    assert [] + t + [] == t;
  }

  /** "Bearer" holds no space, so no occurrence covers a space. */
  lemma SpaceBlocks(h: string, k: nat, p: nat)
    requires p < |h| && h[p] == ' ' && k <= p < k + 6
    ensures !OccursAt(h, Bearer, k)
  {
    if k + 6 <= |h| {
      assert h[k..k + 6][p - k] == ' ';
    }
  }

  /** An occurrence lying inside a copy of `t` would be one in `t`. */
  lemma InsideCopy(h: string, t: string, at: nat, k: nat)
    requires at + |t| <= |h| && h[at..at + |t|] == t && !Contains(t, Bearer)
    requires at <= k && k + 6 <= at + |t|
    ensures !OccursAt(h, Bearer, k)
  {
    var w := h[at..at + |t|];
    var piece := h[k..k + 6];
    assert forall i :: 0 <= i < 6 ==> piece[i] == w[k - at + i];
    assert h[k..k + 6] == t[k - at..k - at + 6];
    assert !OccursAt(t, Bearer, k - at);
  }

  /** Between the scheme name and a second " Bearer", no occurrence fits. */
  lemma NoOccurrenceBeforeSecond(t: string, u: string)
    requires !Contains(t, Bearer)
    ensures forall k: nat :: 6 <= k < 8 + |t| ==> !OccursAt(Bearer + " " + t + " " + Bearer + u, Bearer, k)
  {
    var h := Bearer + " " + t + " " + Bearer + u;
    assert h[7..7 + |t|] == t;
    forall k: nat | 6 <= k < 8 + |t|
      ensures !OccursAt(h, Bearer, k)
    {
      if k == 6 {
        SpaceBlocks(h, 6, 6);
      } else if k + 6 <= 7 + |t| {
        InsideCopy(h, t, 7, k);
      } else {
        SpaceBlocks(h, k, 7 + |t|);
      }
    }
  }

  /** Only the text up to a second "Bearer" is taken. */
  lemma ExtractStopsAtSecondBearer(t: string, u: string)
    requires Trimmed(t) && !Contains(t, Bearer)
    ensures ExtractToken(Bearer + " " + t + " " + Bearer + u) == t
  {
    var h := Bearer + " " + t + " " + Bearer + u;
    var j := 8 + |t|;
    assert h[0..6] == Bearer;
    FindIs(h, Bearer, 0, 0);
    assert h[j..j + 6] == Bearer;
    NoOccurrenceBeforeSecond(t, u);
    FindIs(h, Bearer, 6, j);
    var m := " " + t + " ";
    ExtractBetween(h, 0, j);
    Regroup(Bearer, " ", t, " ", Bearer, u);
    Between(Bearer, m, Bearer + u);
    TrimSpaces(t, " ", " ");
  }

  const I64Min: int := -0x8000_0000_0000_0000
  const I64Max: int := 0x7fff_ffff_ffff_ffff

  /** `str::parse::<i64>`: an optional sign, then one or more decimal
      digits, in range. */
  function ParseI64(s: string): (r: Option<int>)
    ensures r.Some? ==> I64Min <= r.value <= I64Max
    ensures r.Some? ==> s != []
  {
    var signed := |s| > 0 && (s[0] == '-' || s[0] == '+');
    var digits := if signed then s[1..] else s;
    if digits == [] || !AllDigits(digits) then None
    else
      var v: int := if signed && s[0] == '-' then -(Value(digits) as int) else Value(digits);
      if I64Min <= v <= I64Max then Some(v) else None
  }

  /** `i64::to_string`, how `login` writes the id into the claims. */
  function IdText(n: int): string {
    if n < 0 then "-" + Decimal(-n, 0) else Decimal(n, 0)
  }

  /** Every id `login` can issue is read back by `verify_jwt`. */
  lemma ParseIdText(n: int)
    requires I64Min <= n <= I64Max
    ensures ParseI64(IdText(n)) == Some(n)
  {
    if n < 0 {
      ParseNegativeText(-n);
    } else {
      ParseDigitsText(n);
    }
  }

  lemma ParseNegativeText(m: nat)
    requires 0 < m <= -I64Min
    ensures ParseI64("-" + Decimal(m, 0)) == Some(-(m as int))
  {
    var s := "-" + Decimal(m, 0);
    ValueOfDecimal(m, 0);
    assert s[0] == '-' && s[1..] == Decimal(m, 0);
  }

  lemma ParseDigitsText(m: nat)
    requires m <= I64Max
    ensures ParseI64(Decimal(m, 0)) == Some(m)
  {
    var s := Decimal(m, 0);
    ValueOfDecimal(m, 0);
    assert IsDigit(s[0]);
  }

  /** The claims of the token (`InternalJWT`; its expiry is not validated). */
  datatype Claims = Claims(isdoctor: bool, id: string)

  /** A verified identity (`JWT`). */
  datatype Jwt = Jwt(isdoctor: bool, id: int)

  /** `verify_jwt`: decode the extracted token (signature check included,
      done by `decode`), then read the id as an i64. An identity comes out
      exactly when the token decodes and its id claim is an i64 in text. */
  function VerifyJwt(header: string, decode: string -> Option<Claims>): (r: Option<Jwt>)
    ensures r.Some? ==> I64Min <= r.value.id <= I64Max
    ensures forall b: bool, n: int :: r == Some(Jwt(b, n)) <==>
      exists s :: decode(ExtractToken(header)) == Some(Claims(b, s)) && ParseI64(s) == Some(n)
  {
    match decode(ExtractToken(header))
    case None => None
    case Some(c) =>
      match ParseI64(c.id)
      case None => None
      case Some(id) => Some(Jwt(c.isdoctor, id))
  }

  /** What `HeaderValue::to_str` accepts: visible ASCII and tab. */
  predicate IsVisibleAscii(b: byte) {
    b == 9 || 32 <= b < 127
  }

  /** `HeaderValue::to_str`. */
  function HeaderText(v: seq<byte>): (r: Option<string>)
    ensures r.Some? <==> forall i :: 0 <= i < |v| ==> IsVisibleAscii(v[i])
    ensures r.Some? ==> |r.value| == |v| && forall i :: 0 <= i < |v| ==> r.value[i] as int == v[i] as int
  {
    if forall i :: 0 <= i < |v| ==> IsVisibleAscii(v[i])
    then Some(seq(|v|, i requires 0 <= i < |v| => v[i] as int as char))
    else None
  }

  /** `authenticate`: the request passes exactly when it carries an
      Authorization value that reads as text and verifies to the very id and
      role the request claims. */
  function Authenticate(header: Option<seq<byte>>, givenId: int, isDoctor: bool, decode: string -> Option<Claims>): (ok: bool)
    ensures ok <==>
      && header.Some?
      && HeaderText(header.value).Some?
      && VerifyJwt(HeaderText(header.value).value, decode) == Some(Jwt(isDoctor, givenId))
  {
    match header
    case None => false
    case Some(v) =>
      match HeaderText(v)
      case None => false
      case Some(raw) =>
        match VerifyJwt(raw, decode)
        case None => false
        case Some(jwt) => givenId == jwt.id && isDoctor == jwt.isdoctor
  }

  /** A token `login` issued for (role, id), sent in the `Bearer` form,
      admits exactly that id in exactly that role. */
  lemma LoginTokenAuthenticates(v: seq<byte>, t: string, decode: string -> Option<Claims>,
                                isDoctor: bool, id: int, givenId: int, asDoctor: bool)
    requires HeaderText(v) == Some(Bearer + " " + t)
    requires Trimmed(t) && !Contains(t, Bearer)
    requires I64Min <= id <= I64Max && decode(t) == Some(Claims(isDoctor, IdText(id)))
    ensures Authenticate(Some(v), givenId, asDoctor, decode) <==> givenId == id && asDoctor == isDoctor
  {
    ExtractSchemeForm(t);
    ParseIdText(id);
  }
}
