/**
 * `_parse_rfc3339` (data.py, and the identical copy in app.py): RFC 3339
 * timestamps (section 5.6 of RFC 3339) as the load tool writes them are
 * rewritten into a form `datetime.fromisoformat` accepts, then read as a
 * UTC instant. The rewriting is string work and is modelled exactly;
 * `fromisoformat` itself is calendar arithmetic and is a parameter.
 */
module Timestamp {
  import opened Wrappers
  import opened Text
  import Json

  /** `\d{4}-\d{2}-\d{2}T\d{2}:\d{2}:\d{2}` */
  predicate IsDateTimeBase(s: string) {
    && |s| == 19
    && IsDigit(s[0]) && IsDigit(s[1]) && IsDigit(s[2]) && IsDigit(s[3]) && s[4] == '-'
    && IsDigit(s[5]) && IsDigit(s[6]) && s[7] == '-'
    && IsDigit(s[8]) && IsDigit(s[9]) && s[10] == 'T'
    && IsDigit(s[11]) && IsDigit(s[12]) && s[13] == ':'
    && IsDigit(s[14]) && IsDigit(s[15]) && s[16] == ':'
    && IsDigit(s[17]) && IsDigit(s[18])
  }

  /** `(\.\d+)?` */
  predicate IsFraction(f: string) {
    f == [] || (|f| >= 2 && f[0] == '.' && AllDigits(f[1..]))
  }

  /** `[+-]\d{2}:\d{2}` */
  predicate IsUtcOffset(s: string) {
    |s| == 6 && (s[0] == '+' || s[0] == '-') && IsDigit(s[1]) && IsDigit(s[2]) && s[3] == ':' && IsDigit(s[4]) && IsDigit(s[5])
  }

  /** The three named groups of the pattern. */
  datatype Parts = Parts(base: string, fraction: string, offset: string)

  predicate WellFormed(p: Parts) {
    IsDateTimeBase(p.base) && IsFraction(p.fraction) && IsUtcOffset(p.offset)
  }

  function Join(p: Parts): string {
    p.base + p.fraction + p.offset
  }

  /**
   * `re.match("^(?P<base>…)(?P<f>\.\d+)?(?P<tz>[+-]\d{2}:\d{2})$", s)`.
   * Python's `$` also matches just before a single newline that ends the string.
   */
  function MatchParts(s: string): (r: Option<Parts>)
    ensures r.Some? ==> WellFormed(r.value) && (s == Join(r.value) || s == Join(r.value) + "\n")
  {
    var body := if s != [] && s[|s| - 1] == '\n' then s[..|s| - 1] else s;
    if |body| >= 25 && IsDateTimeBase(body[..19]) && IsFraction(body[19..|body| - 6]) && IsUtcOffset(body[|body| - 6..]) then
      var p := Parts(body[..19], body[19..|body| - 6], body[|body| - 6..]);
      assert body == Join(p);
      Some(p)
    else None
  }

  /** The pattern matches every well-formed timestamp, and splits it into the parts it was built from. */
  lemma MatchPartsComplete(p: Parts)
    requires WellFormed(p)
    ensures MatchParts(Join(p)) == Some(p)
  {
    var s := Join(p);
    assert s[..19] == p.base;
    assert s[|s| - 6..] == p.offset;
    assert s[19..|s| - 6] == p.fraction;
  }

  /** Keep at most six fractional digits, dropping the rest without rounding. */
  function TruncateFraction(f: string): string {
    if |f| > 7 then f[..7] else f
  }

  /** The string handed to `datetime.fromisoformat`. */
  function Normalize(s: string): (r: string)
    ensures !EndsWith(s, "Z") && MatchParts(s).None? ==> r == s
    ensures !EndsWith(s, "Z") ==> |r| <= |s|
  {
    var s1 := if EndsWith(s, "Z") then s[..|s| - 1] + "+00:00" else s;
    match MatchParts(s1)
    case Some(p) => p.base + TruncateFraction(p.fraction) + p.offset
    case None => s1
  }

  /** A trailing `Z` always ends up as the explicit offset `+00:00`. */
  lemma NormalizeZulu(s: string)
    requires EndsWith(s, "Z")
    ensures EndsWith(Normalize(s), "+00:00")
  {
    var s1 := s[..|s| - 1] + "+00:00";
    assert s1[|s1| - 6..] == "+00:00";
    match MatchParts(s1)
    case Some(p) =>
      assert s1 == Join(p);
      assert p.offset == s1[|s1| - 6..];
      var r := p.base + TruncateFraction(p.fraction) + p.offset;
      assert r[|r| - 6..] == p.offset;
    case None =>
  }

  /** A string the pattern matches, with no `Z` suffix, keeps its parts and loses only fraction digits. */
  lemma NormalizeMatched(p: Parts)
    requires WellFormed(p)
    ensures Normalize(Join(p)) == p.base + TruncateFraction(p.fraction) + p.offset
  {
    MatchPartsComplete(p);
    var s := Join(p);
    assert !EndsWith(s, "Z") by {
      assert s[|s| - 1] == p.offset[5];
    }
  }

  lemma Regroup(a: string, b: string, c: string, d: string)
    ensures a + (b + c) + d == a + b + c + d
  {
  }

  /** A dotted fraction keeps its first six digits. */
  lemma TruncateDotted(digits: string)
    ensures TruncateFraction("." + digits) == "." + (if |digits| > 6 then digits[..6] else digits)
  {
    if |digits| > 6 {
      assert ("." + digits)[..7] == "." + digits[..6];
    }
  }

  /** A well-formed timestamp with a fraction and an explicit offset is matched. */
  lemma NormalizeDotted(base: string, digits: string, offset: string)
    requires IsDateTimeBase(base) && digits != [] && AllDigits(digits) && IsUtcOffset(offset)
    ensures Normalize(base + "." + digits + offset) == base + TruncateFraction("." + digits) + offset
  {
    var f := "." + digits;
    assert f[1..] == digits;
    var p := Parts(base, f, offset);
    NormalizeMatched(p);
    Regroup(base, ".", digits, offset);
  }

  /**
   * A fraction of any length keeps exactly its first six digits (fewer are
   * kept as they are); the offset and the date-time are untouched.
   */
  lemma NormalizeTruncatesFraction(base: string, digits: string, offset: string)
    requires IsDateTimeBase(base) && digits != [] && AllDigits(digits) && IsUtcOffset(offset)
    ensures Normalize(base + "." + digits + offset)
         == base + "." + (if |digits| > 6 then digits[..6] else digits) + offset
  {
    NormalizeDotted(base, digits, offset);
    TruncateDotted(digits);
    Regroup(base, ".", if |digits| > 6 then digits[..6] else digits, offset);
  }

  /** With a `Z` suffix the same truncation happens, and the offset becomes `+00:00`. */
  lemma NormalizeTruncatesZuluFraction(base: string, digits: string)
    requires IsDateTimeBase(base) && digits != [] && AllDigits(digits)
    ensures Normalize(base + "." + digits + "Z")
         == base + "." + (if |digits| > 6 then digits[..6] else digits) + "+00:00"
  {
    var s := base + "." + digits + "Z";
    assert EndsWith(s, "Z");
    assert s[..|s| - 1] + "+00:00" == base + "." + digits + "+00:00";
    NormalizeTruncatesFraction(base, digits, "+00:00");
  }

  /** Digits past the sixth fractional one make no difference to the normalised string. */
  lemma NormalizeDropsSubMicroseconds(base: string, digits: string, extra: string)
    requires IsDateTimeBase(base) && |digits| == 6 && AllDigits(digits) && AllDigits(extra)
    ensures Normalize(base + "." + digits + extra + "Z") == Normalize(base + "." + digits + "Z")
  {
    var longer := digits + extra;
    AllDigitsConcat(digits, extra);
    assert base + "." + digits + extra + "Z" == base + "." + longer + "Z";
    assert longer[..6] == digits;
    NormalizeTruncatesZuluFraction(base, longer);
    NormalizeTruncatesZuluFraction(base, digits);
  }

  lemma AllDigitsConcat(a: string, b: string)
    requires AllDigits(a) && AllDigits(b)
    ensures AllDigits(a + b)
  {
    forall i | 0 <= i < |a + b|
      ensures IsDigit((a + b)[i])
    {
      if i >= |a| {
        assert (a + b)[i] == b[i - |a|];
      }
    }
  }

  /** Normalising twice changes nothing more. */
  lemma NormalizeIdempotent(s: string)
    ensures Normalize(Normalize(s)) == Normalize(s)
  {
    var s1 := if EndsWith(s, "Z") then s[..|s| - 1] + "+00:00" else s;
    if EndsWith(s, "Z") {
      assert !EndsWith(s1, "Z") by {
        assert s1[|s1| - 1] == '0';
      }
    }
    match MatchParts(s1)
    case Some(p) =>
      var q := Parts(p.base, TruncateFraction(p.fraction), p.offset);
      assert IsFraction(q.fraction) by {
        if |p.fraction| > 7 {
          assert q.fraction[1..] == p.fraction[1..7];
        }
      }
      MatchPartsComplete(q);
      var r := Join(q);
      assert !EndsWith(r, "Z") by {
        assert r[|r| - 1] == p.offset[5];
      }
    case None =>
  }

  /** What `datetime.fromisoformat` returns: wall-clock microseconds and an offset in minutes, absent for a naive time. */
  datatype IsoDateTime = IsoDateTime(wallMicros: int, offsetMinutes: Option<int>)

  /** The UTC instant, in microseconds since the epoch, of a parsed time; a naive time is taken as UTC. */
  function UtcMicros(d: IsoDateTime): int {
    d.wallMicros - d.offsetMinutes.GetOr(0) * 60_000_000
  }

  /**
   * `_parse_rfc3339(v)`: the UTC instant in microseconds, or `None` where
   * Python raises (a value that is not a string, or one `fromisoformat` rejects).
   */
  function ParseRfc3339(v: Json.Value, fromIso: string -> Option<IsoDateTime>): (r: Option<int>)
    ensures !v.Str? ==> r.None?
    ensures v.Str? ==> (r.Some? <==> fromIso(Normalize(v.s)).Some?)
  {
    if !v.Str? then None
    else
      var d :- fromIso(Normalize(v.s));
      Some(UtcMicros(d))
  }

  /** A naive time (no offset) is read as UTC: its instant is its wall-clock value. */
  lemma NaiveIsUtc(s: string, fromIso: string -> Option<IsoDateTime>, wall: int)
    requires fromIso(Normalize(s)) == Some(IsoDateTime(wall, None))
    ensures ParseRfc3339(Json.Str(s), fromIso) == Some(wall)
  {
  }

  /** Two timestamps that differ only in digits past the sixth fractional one denote the same instant. */
  lemma SubMicrosecondDigitsIgnored(base: string, digits: string, extra: string, fromIso: string -> Option<IsoDateTime>)
    requires IsDateTimeBase(base) && |digits| == 6 && AllDigits(digits) && AllDigits(extra)
    ensures ParseRfc3339(Json.Str(base + "." + digits + extra + "Z"), fromIso)
         == ParseRfc3339(Json.Str(base + "." + digits + "Z"), fromIso)
  {
    NormalizeDropsSubMicroseconds(base, digits, extra);
  }
}
