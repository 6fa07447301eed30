/**
 `sanitizeInput` of contact_form.php: PHP `trim`, then `stripslashes`, then
 `htmlspecialchars($data, ENT_QUOTES, 'UTF-8')`, all on byte strings.
 */
module Sanitize {
  import opened Bytes
  import Utf8

  // ---------------------------------------------------------------------------
  // trim
  // ---------------------------------------------------------------------------

  /** The bytes PHP `trim` strips by default: space, tab, line feed, carriage
      return, NUL and vertical tab. */
  predicate IsTrimmable(b: byte) {
    b == 0x20 || b == 0x09 || b == 0x0A || b == 0x0D || b == 0x00 || b == 0x0B
  }

  /** `s[i..j]` is what is left of `s` once its trimmable edges are cut off:
      everything outside it is trimmable and it does not start or end with
      a trimmable byte. */
  ghost predicate IsTrimmedSlice(s: Bytes, i: nat, j: nat) {
    && i <= j <= |s|
    && (forall k | 0 <= k < i :: IsTrimmable(s[k]))
    && (forall k | j <= k < |s| :: IsTrimmable(s[k]))
    && (i < j ==> !IsTrimmable(s[i]) && !IsTrimmable(s[j - 1]))
  }

  /** The first scan of `trim`: from `i` on, skip trimmable bytes. */
  function TrimStart(s: Bytes, i: nat): (n: nat)
    requires i <= |s|
    ensures i <= n <= |s|
    ensures forall k | i <= k < n :: IsTrimmable(s[k])
    ensures n < |s| ==> !IsTrimmable(s[n])
    decreases |s| - i
  {
    if i < |s| && IsTrimmable(s[i]) then TrimStart(s, i + 1) else i
  }

  /** The second scan of `trim`: from `j` back, skip trimmable bytes, never
      going below `i`. */
  function TrimEnd(s: Bytes, i: nat, j: nat): (n: nat)
    requires i <= j <= |s|
    ensures i <= n <= j
    ensures forall k | n <= k < j :: IsTrimmable(s[k])
    ensures n > i ==> !IsTrimmable(s[n - 1])
    decreases j
  {
    if j > i && IsTrimmable(s[j - 1]) then TrimEnd(s, i, j - 1) else j
  }

  /** PHP `trim($s)`: the slice of `s` left between the two scans, which is
      the trimmed slice of `s`. */
  function Trim(s: Bytes): (r: Bytes)
    ensures |r| <= |s|
    ensures |r| > 0 ==> !IsTrimmable(r[0]) && !IsTrimmable(r[|r| - 1])
    ensures TrimStart(s, 0) + |r| <= |s|
    ensures IsTrimmedSlice(s, TrimStart(s, 0), TrimStart(s, 0) + |r|)
    ensures r == s[TrimStart(s, 0)..TrimStart(s, 0) + |r|]
  {
    var i := TrimStart(s, 0);
    s[i..TrimEnd(s, i, |s|)]
  }

  /** Only one slice of `s` is its trimmed slice (an empty one may sit
      anywhere, but is empty wherever it sits). */
  lemma TrimmedSliceUnique(s: Bytes, i: nat, j: nat, i2: nat, j2: nat)
    requires IsTrimmedSlice(s, i, j) && IsTrimmedSlice(s, i2, j2)
    ensures s[i..j] == s[i2..j2]
  {
    if i < j {
      assert !IsTrimmable(s[i]) && !IsTrimmable(s[j - 1]);
    }
    if i2 < j2 {
      assert !IsTrimmable(s[i2]) && !IsTrimmable(s[j2 - 1]);
    }
  }

  /** `trim` returns exactly the trimmed slice of its input. */
  lemma TrimIsTrimmedSlice(s: Bytes, i: nat, j: nat)
    requires IsTrimmedSlice(s, i, j)
    ensures Trim(s) == s[i..j]
  {
    var r := Trim(s);
    var i0 := TrimStart(s, 0);
    TrimmedSliceUnique(s, i, j, i0, i0 + |r|);
  }

  /** `trim` removes exactly the padding around a core that neither starts
      nor ends with a trimmable byte. */
  lemma TrimPadded(before: Bytes, core: Bytes, after: Bytes)
    requires forall i | 0 <= i < |before| :: IsTrimmable(before[i])
    requires forall i | 0 <= i < |after| :: IsTrimmable(after[i])
    requires |core| > 0 && !IsTrimmable(core[0]) && !IsTrimmable(core[|core| - 1])
    ensures Trim(before + core + after) == core
  {
    var s := before + core + after;
    var i := |before|;
    var j := i + |core|;
    assert IsTrimmedSlice(s, i, j);
    TrimIsTrimmedSlice(s, i, j);
    assert s[i..j] == core;
  }

  /** A string that neither starts nor ends with a trimmable byte is left
      alone by `trim`, whatever it holds in between. */
  lemma TrimKeepsUnpadded(s: Bytes)
    requires |s| > 0 ==> !IsTrimmable(s[0]) && !IsTrimmable(s[|s| - 1])
    ensures Trim(s) == s
  {
    assert IsTrimmedSlice(s, 0, |s|);
    TrimIsTrimmedSlice(s, 0, |s|);
    assert s[0..|s|] == s;
  }

  /** Trimming twice is trimming once. */
  lemma TrimIdempotent(s: Bytes)
    ensures Trim(Trim(s)) == Trim(s)
  {
    var t := Trim(s);
    TrimIsTrimmedSlice(t, 0, |t|);
  }

  // ---------------------------------------------------------------------------
  // stripslashes / addslashes
  // ---------------------------------------------------------------------------

  const Backslash: byte := 0x5C
  const DigitZero: byte := 0x30
  const Nul: byte := 0x00
  const DoubleQuote: byte := 0x22
  const SingleQuote: byte := 0x27

  /** PHP `stripslashes`: a backslash is dropped and the byte after it kept
      as is, except that `\0` becomes a NUL byte; a lone trailing backslash
      disappears. */
  function StripSlashes(s: Bytes): (r: Bytes)
    ensures |r| <= |s|
    decreases |s|
  {
    if |s| == 0 then []
    else if s[0] != Backslash then [s[0]] + StripSlashes(s[1..])
    else if |s| == 1 then []
    else if s[1] == DigitZero then [Nul] + StripSlashes(s[2..])
    else [s[1]] + StripSlashes(s[2..])
  }

  /** PHP `addslashes`, the documented inverse of `stripslashes`: quotes,
      backslash and NUL get a backslash in front, NUL written as `\0`. */
  function AddSlashes(s: Bytes): (r: Bytes)
    ensures |s| <= |r| <= 2 * |s|
    decreases |s|
  {
    if |s| == 0 then []
    else if s[0] == Nul then [Backslash, DigitZero] + AddSlashes(s[1..])
    else if s[0] == SingleQuote || s[0] == DoubleQuote || s[0] == Backslash then [Backslash, s[0]] + AddSlashes(s[1..])
    else [s[0]] + AddSlashes(s[1..])
  }

  /** `stripslashes` undoes `addslashes`. */
  lemma {:induction false} StripSlashesInvertsAddSlashes(s: Bytes)
    ensures StripSlashes(AddSlashes(s)) == s
    decreases |s|
  {
    if |s| > 0 {
      StripSlashesInvertsAddSlashes(s[1..]);
      var t := AddSlashes(s[1..]);
      if s[0] == Nul {
        assert ([Backslash, DigitZero] + t)[2..] == t;
      } else if s[0] == SingleQuote || s[0] == DoubleQuote || s[0] == Backslash {
        assert ([Backslash, s[0]] + t)[2..] == t;
      } else {
        assert ([s[0]] + t)[1..] == t;
      }
      assert s == [s[0]] + s[1..];
    }
  }

  /** A string without backslashes passes through `stripslashes` unchanged. */
  lemma {:induction false} StripSlashesWithoutBackslash(s: Bytes)
    requires forall i | 0 <= i < |s| :: s[i] != Backslash
    ensures StripSlashes(s) == s
    decreases |s|
  {
    if |s| > 0 {
      StripSlashesWithoutBackslash(s[1..]);
      assert s == [s[0]] + s[1..];
    }
  }

  /** A backslash-free run passes through and the rest is processed on its own. */
  lemma {:induction false} StripSlashesPlainRun(s: Bytes, i: nat, j: nat)
    requires i <= j <= |s|
    requires forall k | i <= k < j :: s[k] != Backslash
    ensures StripSlashes(s[i..]) == s[i..j] + StripSlashes(s[j..])
    decreases j - i
  {
    if i < j {
      var r := s[i..];
      assert r[0] == s[i] && r[1..] == s[i + 1..];
      assert StripSlashes(r) == [s[i]] + StripSlashes(s[i + 1..]);
      StripSlashesPlainRun(s, i + 1, j);
      assert [s[i]] + s[i + 1..j] == s[i..j];
    }
  }

  /** A backslash before a byte other than `0` is dropped and the byte kept. */
  lemma StripSlashesEscapedByte(t: Bytes)
    requires |t| >= 1 && t[0] != DigitZero
    ensures StripSlashes([Backslash] + t) == [t[0]] + StripSlashes(t[1..])
  {
    var s := [Backslash] + t;
    assert s[0] == Backslash && s[1] == t[0] && s[2..] == t[1..];
  }

  /** `\0` becomes a NUL byte. */
  lemma StripSlashesEscapedZero(t: Bytes)
    ensures StripSlashes([Backslash, DigitZero] + t) == [Nul] + StripSlashes(t)
  {
    var s := [Backslash, DigitZero] + t;
    assert s[2..] == t;
  }

  /** A lone backslash at the end is dropped. */
  lemma StripSlashesTrailingBackslash(p: Bytes)
    requires forall i | 0 <= i < |p| :: p[i] != Backslash
    ensures StripSlashes(p + [Backslash]) == p
  {
    var s := p + [Backslash];
    StripSlashesPlainRun(s, 0, |p|);
    assert s[0..] == s && s[0..|p|] == p && s[|p|..] == [Backslash];
  }

  /** A backslash followed by a byte other than `0` and then by bytes that
      are not backslashes keeps all of them: for a multi-byte character
      those are its continuation bytes. */
  lemma StripSlashesEscapedChar(t: Bytes, n: nat)
    requires 1 <= n <= |t| && t[0] != DigitZero
    requires forall k | 1 <= k < n :: t[k] != Backslash
    ensures StripSlashes([Backslash] + t) == t[..n] + StripSlashes(t[n..])
  {
    StripSlashesEscapedByte(t);
    StripSlashesPlainRun(t, 1, n);
    HeadAndSlice(t, n, StripSlashes(t[n..]));
  }

  lemma HeadAndSlice(t: Bytes, n: nat, rest: Bytes)
    requires 1 <= n <= |t|
    ensures [t[0]] + (t[1..n] + rest) == t[..n] + rest
  {
    assert [t[0]] + t[1..n] == t[..n];
  }

  /** `stripslashes` maps well-formed UTF-8 to well-formed UTF-8: it only
      removes ASCII backslashes and turns ASCII `0` into ASCII NUL. */
  lemma {:induction false} StripSlashesKeepsWellFormed(s: Bytes)
    requires Utf8.WellFormed(s)
    ensures Utf8.WellFormed(StripSlashes(s))
    decreases |s|
  {
    if |s| == 0 {
    } else if s[0] != Backslash {
      var n := Utf8.FirstCharLength(s);
      StripSlashesPlainRun(s, 0, n);
      assert s[0..] == s;
      Utf8.FirstCharWellFormed(s);
      StripSlashesKeepsWellFormed(s[n..]);
      Utf8.AppendWellFormed(s[..n], StripSlashes(s[n..]));
    } else if |s| == 1 {
    } else {
      var t := s[1..];
      Utf8.DropAsciiHead(s);
      if t[0] == DigitZero {
        Utf8.DropAsciiHead(t);
        assert t[1..] == s[2..];
        StripSlashesKeepsWellFormed(s[2..]);
        Utf8.AsciiWellFormed([Nul]);
        Utf8.AppendWellFormed([Nul], StripSlashes(s[2..]));
      } else {
        var n := Utf8.FirstCharLength(t);
        assert s == [Backslash] + t;
        assert forall k | 1 <= k < n :: Utf8.IsContinuation(t[k]);
        StripSlashesEscapedChar(t, n);
        Utf8.FirstCharWellFormed(t);
        StripSlashesKeepsWellFormed(t[n..]);
        Utf8.AppendWellFormed(t[..n], StripSlashes(t[n..]));
      }
    }
  }

  /** Everything `trim` cuts off is ASCII. */
  lemma TrimmedEdgesAscii(s: Bytes, i: nat, j: nat)
    requires IsTrimmedSlice(s, i, j)
    ensures forall k | 0 <= k < i :: s[k] < 0x80
    ensures forall k | j <= k < |s| :: s[k] < 0x80
  {
  }

  /** Slicing `s[..j]` from `i` is slicing `s` from `i` to `j`. */
  lemma PrefixThenSuffix(s: Bytes, i: nat, j: nat)
    requires i <= j <= |s|
    ensures s[..j][i..] == s[i..j]
  {
  }

  /** `trim` maps well-formed UTF-8 to well-formed UTF-8: it cuts off
      ASCII bytes only. */
  lemma TrimKeepsWellFormed(s: Bytes)
    requires Utf8.WellFormed(s)
    ensures Utf8.WellFormed(Trim(s))
  {
    var i := TrimStart(s, 0);
    var j := i + |Trim(s)|;
    TrimmedEdgesAscii(s, i, j);
    Utf8.DropAsciiSuffix(s, j);
    var p := s[..j];
    assert forall k | 0 <= k < i :: p[k] == s[k];
    Utf8.DropAsciiPrefix(p, i);
    PrefixThenSuffix(s, i, j);
  }

  // ---------------------------------------------------------------------------
  // htmlspecialchars(…, ENT_QUOTES, 'UTF-8')
  // ---------------------------------------------------------------------------

  const Ampersand: byte := 0x26
  const LessThan: byte := 0x3C
  const GreaterThan: byte := 0x3E

  const AmpEntity: Bytes := [0x26, 0x61, 0x6D, 0x70, 0x3B]        // &amp;
  const QuotEntity: Bytes := [0x26, 0x71, 0x75, 0x6F, 0x74, 0x3B] // &quot;
  const AposEntity: Bytes := [0x26, 0x23, 0x30, 0x33, 0x39, 0x3B] // &#039;
  const LtEntity: Bytes := [0x26, 0x6C, 0x74, 0x3B]               // &lt;
  const GtEntity: Bytes := [0x26, 0x67, 0x74, 0x3B]               // &gt;

  /** The bytes `htmlspecialchars` with ENT_QUOTES rewrites. */
  predicate IsMarkup(b: byte) {
    b == Ampersand || b == DoubleQuote || b == SingleQuote || b == LessThan || b == GreaterThan
  }

  /** What one byte becomes: ENT_QUOTES with the default HTML 4.01 table
      writes the single quote as `&#039;`; `&` is always rewritten, since
      double encoding is on by default. */
  function EscapeByte(b: byte): (r: Bytes)
    ensures 1 <= |r| <= 6
    ensures r == [b] <==> !IsMarkup(b)
    ensures IsMarkup(b) ==> forall i | 0 <= i < |r| :: r[i] < 0x80
  {
    if b == Ampersand then AmpEntity
    else if b == DoubleQuote then QuotEntity
    else if b == SingleQuote then AposEntity
    else if b == LessThan then LtEntity
    else if b == GreaterThan then GtEntity
    else [b]
  }

  /** The byte-level escaping of `htmlspecialchars` on well-formed input. */
  function EscapeHtml(s: Bytes): (r: Bytes)
    ensures |s| <= |r| <= 6 * |s|
    ensures |r| == |s| <==> forall i | 0 <= i < |s| :: !IsMarkup(s[i])
    decreases |s|
  {
    if |s| == 0 then [] else EscapeByte(s[0]) + EscapeHtml(s[1..])
  }

  /** An entity that `htmlspecialchars` with ENT_QUOTES writes begins at `i`. */
  predicate EntityAt(r: Bytes, i: nat) {
    OccursAt(r, i, AmpEntity) || OccursAt(r, i, QuotEntity) || OccursAt(r, i, AposEntity)
    || OccursAt(r, i, LtEntity) || OccursAt(r, i, GtEntity)
  }

  /** Safe for an HTML context: no raw `<`, `>`, `"` or `'`, and every `&`
      starts one of the five entities. */
  predicate HtmlSafe(r: Bytes) {
    && (forall i | 0 <= i < |r| :: r[i] != LessThan && r[i] != GreaterThan && r[i] != DoubleQuote && r[i] != SingleQuote)
    && (forall i | 0 <= i < |r| && r[i] == Ampersand :: EntityAt(r, i))
  }

  /** The reference decoder (PHP `htmlspecialchars_decode` restricted to the
      five entities): each entity becomes its byte, everything else stays. */
  function UnescapeHtml(r: Bytes): Bytes
    decreases |r|
  {
    if |r| == 0 then []
    else if OccursAt(r, 0, AmpEntity) then [Ampersand] + UnescapeHtml(r[|AmpEntity|..])
    else if OccursAt(r, 0, QuotEntity) then [DoubleQuote] + UnescapeHtml(r[|QuotEntity|..])
    else if OccursAt(r, 0, AposEntity) then [SingleQuote] + UnescapeHtml(r[|AposEntity|..])
    else if OccursAt(r, 0, LtEntity) then [LessThan] + UnescapeHtml(r[|LtEntity|..])
    else if OccursAt(r, 0, GtEntity) then [GreaterThan] + UnescapeHtml(r[|GtEntity|..])
    else [r[0]] + UnescapeHtml(r[1..])
  }

  /** The escaping works byte by byte, so it distributes over concatenation. */
  lemma {:induction false} EscapeHtmlAppend(a: Bytes, b: Bytes)
    ensures EscapeHtml(a + b) == EscapeHtml(a) + EscapeHtml(b)
    decreases |a|
  {
    if |a| == 0 {
      assert a + b == b;
    } else {
      assert (a + b)[0] == a[0];
      assert (a + b)[1..] == a[1..] + b;
      EscapeHtmlAppend(a[1..], b);
    }
  }

  /** Bytes that are not markup pass through unchanged. */
  lemma {:induction false} EscapeHtmlPlain(s: Bytes)
    requires forall i | 0 <= i < |s| :: !IsMarkup(s[i])
    ensures EscapeHtml(s) == s
    decreases |s|
  {
    if |s| > 0 {
      EscapeHtmlPlain(s[1..]);
      assert s == [s[0]] + s[1..];
    }
  }

  /** The escaped form of one byte is safe. */
  lemma EscapeByteSafe(b: byte)
    ensures HtmlSafe(EscapeByte(b))
  {
    var e := EscapeByte(b);
    assert OccursAt(e, 0, e);
  }

  /** Safety is kept by concatenation. */
  lemma AppendSafe(a: Bytes, b: Bytes)
    requires HtmlSafe(a) && HtmlSafe(b)
    ensures HtmlSafe(a + b)
  {
    var r := a + b;
    forall i | 0 <= i < |r| && r[i] == Ampersand
      ensures EntityAt(r, i)
    {
      if i < |a| {
        assert r[..|a|] == a;
        assert EntityAt(a, i);
        assert forall e: Bytes | OccursAt(a, i, e) :: OccursAt(r, i, e) by {
          forall e: Bytes | OccursAt(a, i, e) ensures OccursAt(r, i, e) {
            assert r[i..i + |e|] == a[i..i + |e|];
          }
        }
      } else {
        assert r[i] == b[i - |a|];
        assert EntityAt(b, i - |a|);
        forall e: Bytes | OccursAt(b, i - |a|, e) ensures OccursAt(r, i, e) {
          OccursAtShift(a, b, i - |a|, e);
        }
      }
    }
  }

  /** Whatever the input, the output of the escaping is safe. */
  lemma {:induction false} EscapeHtmlSafe(s: Bytes)
    ensures HtmlSafe(EscapeHtml(s))
    decreases |s|
  {
    if |s| > 0 {
      EscapeByteSafe(s[0]);
      EscapeHtmlSafe(s[1..]);
      AppendSafe(EscapeByte(s[0]), EscapeHtml(s[1..]));
    }
  }

  /** Decoding an entity followed by anything yields the entity's byte. */
  lemma UnescapeAmp(rest: Bytes)
    ensures UnescapeHtml(AmpEntity + rest) == [Ampersand] + UnescapeHtml(rest)
  {
    var r := AmpEntity + rest;
    assert r[..5] == AmpEntity;
    assert r[5..] == rest;
  }

  lemma UnescapeQuot(rest: Bytes)
    ensures UnescapeHtml(QuotEntity + rest) == [DoubleQuote] + UnescapeHtml(rest)
  {
    var r := QuotEntity + rest;
    assert r[1] != AmpEntity[1];
    assert r[..6] == QuotEntity;
    assert r[6..] == rest;
  }

  lemma UnescapeApos(rest: Bytes)
    ensures UnescapeHtml(AposEntity + rest) == [SingleQuote] + UnescapeHtml(rest)
  {
    var r := AposEntity + rest;
    assert r[1] != AmpEntity[1] && r[1] != QuotEntity[1];
    assert r[..6] == AposEntity;
    assert r[6..] == rest;
  }

  lemma UnescapeLt(rest: Bytes)
    ensures UnescapeHtml(LtEntity + rest) == [LessThan] + UnescapeHtml(rest)
  {
    var r := LtEntity + rest;
    assert r[1] != AmpEntity[1] && r[1] != QuotEntity[1] && r[1] != AposEntity[1];
    assert r[..4] == LtEntity;
    assert r[4..] == rest;
  }

  lemma UnescapeGt(rest: Bytes)
    ensures UnescapeHtml(GtEntity + rest) == [GreaterThan] + UnescapeHtml(rest)
  {
    var r := GtEntity + rest;
    assert r[1] != AmpEntity[1] && r[1] != QuotEntity[1] && r[1] != AposEntity[1] && r[1] != LtEntity[1];
    assert r[..4] == GtEntity;
    assert r[4..] == rest;
  }

  /** Decoding the escaped form of a byte followed by anything yields the byte. */
  lemma UnescapeEscapedByte(b: byte, rest: Bytes)
    ensures UnescapeHtml(EscapeByte(b) + rest) == [b] + UnescapeHtml(rest)
  {
    if b == Ampersand {
      UnescapeAmp(rest);
    } else if b == DoubleQuote {
      UnescapeQuot(rest);
    } else if b == SingleQuote {
      UnescapeApos(rest);
    } else if b == LessThan {
      UnescapeLt(rest);
    } else if b == GreaterThan {
      UnescapeGt(rest);
    } else {
      UnescapePlainByte(b, rest);
    }
  }

  /** A byte other than `&` decodes to itself. */
  lemma UnescapePlainByte(b: byte, rest: Bytes)
    requires b != Ampersand
    ensures UnescapeHtml([b] + rest) == [b] + UnescapeHtml(rest)
  {
    var r := [b] + rest;
    assert r[0] == b;
    assert !OccursAt(r, 0, AmpEntity) by { assert AmpEntity[0] == Ampersand; }
    assert !OccursAt(r, 0, QuotEntity) by { assert QuotEntity[0] == Ampersand; }
    assert !OccursAt(r, 0, AposEntity) by { assert AposEntity[0] == Ampersand; }
    assert !OccursAt(r, 0, LtEntity) by { assert LtEntity[0] == Ampersand; }
    assert !OccursAt(r, 0, GtEntity) by { assert GtEntity[0] == Ampersand; }
    assert r[1..] == rest;
  }

  /** Escaping loses nothing: decoding gives the input back. */
  lemma {:induction false} UnescapeInvertsEscape(s: Bytes)
    ensures UnescapeHtml(EscapeHtml(s)) == s
    decreases |s|
  {
    if |s| > 0 {
      UnescapeEscapedByte(s[0], EscapeHtml(s[1..]));
      UnescapeInvertsEscape(s[1..]);
      assert s == [s[0]] + s[1..];
    }
  }

  /** Different inputs never escape to the same output. */
  lemma EscapeHtmlInjective(s: Bytes, t: Bytes)
    requires EscapeHtml(s) == EscapeHtml(t)
    ensures s == t
  {
    UnescapeInvertsEscape(s);
    UnescapeInvertsEscape(t);
  }

  /** A suffix of a safe string is safe. */
  lemma SuffixSafe(r: Bytes, k: nat)
    requires HtmlSafe(r) && k <= |r|
    ensures HtmlSafe(r[k..])
  {
    assert r == r[..k] + r[k..];
    forall i | 0 <= i < |r[k..]| && r[k..][i] == Ampersand
      ensures EntityAt(r[k..], i)
    {
      assert EntityAt(r, k + i);
      forall e: Bytes | OccursAt(r, k + i, e) ensures OccursAt(r[k..], i, e) {
        OccursAtUnshift(r[..k], r[k..], i, e);
      }
    }
  }

  /** The safe strings are exactly the outputs of the escaping: escaping the
      decoded form of a safe string gives it back. */
  lemma {:induction false} EscapeInvertsUnescapeOnSafe(r: Bytes)
    requires HtmlSafe(r)
    ensures EscapeHtml(UnescapeHtml(r)) == r
    decreases |r|
  {
    if |r| > 0 {
      var b, n := SafeHead(r);
      var rest := UnescapeHtml(r[n..]);
      calc {
        EscapeHtml(UnescapeHtml(r));
        EscapeHtml([b] + rest);
      == { EscapeHtmlCons(b, rest); }
        EscapeByte(b) + EscapeHtml(rest);
      == { SuffixSafe(r, n); EscapeInvertsUnescapeOnSafe(r[n..]); }
        r[..n] + r[n..];
      == { SplitAt(r, n); }
        r;
      }
    }
  }

  /** A safe, non-empty string starts with one escaped byte `b` of length
      `n`: an entity when it starts with `&`, the byte itself otherwise. */
  lemma SafeHead(r: Bytes) returns (b: byte, n: nat)
    requires HtmlSafe(r) && |r| > 0
    ensures 1 <= n <= |r|
    ensures UnescapeHtml(r) == [b] + UnescapeHtml(r[n..])
    ensures EscapeByte(b) == r[..n]
  {
    if OccursAt(r, 0, AmpEntity) {
      b, n := Ampersand, |AmpEntity|;
    } else if OccursAt(r, 0, QuotEntity) {
      b, n := DoubleQuote, |QuotEntity|;
    } else if OccursAt(r, 0, AposEntity) {
      b, n := SingleQuote, |AposEntity|;
    } else if OccursAt(r, 0, LtEntity) {
      b, n := LessThan, |LtEntity|;
    } else if OccursAt(r, 0, GtEntity) {
      b, n := GreaterThan, |GtEntity|;
    } else {
      b, n := r[0], 1;
      assert !EntityAt(r, 0);
      assert !IsMarkup(r[0]);
      assert r[..1] == [r[0]];
    }
  }

  lemma SplitAt(r: Bytes, n: nat)
    requires n <= |r|
    ensures r[..n] + r[n..] == r
  {
  }

  lemma EscapeHtmlCons(b: byte, s: Bytes)
    ensures EscapeHtml([b] + s) == EscapeByte(b) + EscapeHtml(s)
  {
    assert ([b] + s)[1..] == s;
  }

  /** Escaping maps well-formed UTF-8 to well-formed UTF-8: it rewrites
      ASCII bytes only, into ASCII. */
  lemma {:induction false} EscapeHtmlKeepsWellFormed(s: Bytes)
    requires Utf8.WellFormed(s)
    ensures Utf8.WellFormed(EscapeHtml(s))
    decreases |s|
  {
    if |s| > 0 {
      var n := Utf8.FirstCharLength(s);
      assert s == s[..n] + s[n..];
      EscapeHtmlAppend(s[..n], s[n..]);
      if n == 1 {
        assert s[..1] == [s[0]] + [];
        assert EscapeHtml(s[..1]) == EscapeByte(s[0]);
        Utf8.AsciiWellFormed(EscapeByte(s[0]));
      } else {
        assert forall i | 0 <= i < n :: s[..n][i] >= 0x80;
        EscapeHtmlPlain(s[..n]);
        Utf8.FirstCharWellFormed(s);
      }
      EscapeHtmlKeepsWellFormed(s[n..]);
      Utf8.AppendWellFormed(EscapeHtml(s[..n]), EscapeHtml(s[n..]));
    }
  }

  /** PHP `htmlspecialchars($s, ENT_QUOTES, 'UTF-8')`: without ENT_SUBSTITUTE
      or ENT_IGNORE an ill-formed input yields the empty string. */
  function HtmlSpecialChars(s: Bytes): (r: Bytes)
    ensures HtmlSafe(r)
    ensures Utf8.WellFormed(r)
    ensures Utf8.WellFormed(s) ==> UnescapeHtml(r) == s
    ensures !Utf8.WellFormed(s) ==> r == []
  {
    if Utf8.WellFormed(s) then
      EscapeHtmlSafe(s);
      EscapeHtmlKeepsWellFormed(s);
      UnescapeInvertsEscape(s);
      EscapeHtml(s)
    else
      EscapeHtmlSafe([]);
      []
  }

  // ---------------------------------------------------------------------------
  // sanitizeInput
  // ---------------------------------------------------------------------------

  /** `sanitizeInput($data)` of contact_form.php. */
  function SanitizeInput(data: Bytes): (r: Bytes)
    ensures HtmlSafe(r)
    ensures Utf8.WellFormed(r)
    ensures Utf8.WellFormed(data) ==> UnescapeHtml(r) == StripSlashes(Trim(data))
  {
    PrepareKeepsWellFormed(data);
    HtmlSpecialChars(StripSlashes(Trim(data)))
  }

  /** The first two steps of `sanitizeInput` keep UTF-8 well-formed, so
      only ill-formed input can reach the empty-string path of
      `htmlspecialchars`. */
  lemma PrepareKeepsWellFormed(data: Bytes)
    ensures Utf8.WellFormed(data) ==> Utf8.WellFormed(StripSlashes(Trim(data)))
  {
    if Utf8.WellFormed(data) {
      TrimKeepsWellFormed(data);
      StripSlashesKeepsWellFormed(Trim(data));
    }
  }

  /** On well-formed input the empty-string failure path of
      `htmlspecialchars` is never taken: the result is the escaped form of
      the trimmed, unslashed input. */
  lemma SanitizeWellFormed(data: Bytes)
    requires Utf8.WellFormed(data)
    ensures SanitizeInput(data) == EscapeHtml(StripSlashes(Trim(data)))
  {
    PrepareKeepsWellFormed(data);
  }

  /** No printable byte other than the space is trimmed. */
  lemma PrintableNotTrimmable(b: byte)
    requires 0x20 < b < 0x7F
    ensures !IsTrimmable(b)
  {
  }

  /** On printable ASCII without backslashes and without a space at either
      end, `trim` and `stripslashes` have nothing to do: `sanitizeInput`
      only escapes. */
  lemma SanitizePrintable(s: Bytes)
    requires forall i | 0 <= i < |s| :: 0x20 <= s[i] < 0x7F && s[i] != Backslash
    requires |s| > 0 ==> s[0] != 0x20 && s[|s| - 1] != 0x20
    ensures SanitizeInput(s) == EscapeHtml(s)
  {
    if |s| > 0 {
      PrintableNotTrimmable(s[0]);
      PrintableNotTrimmable(s[|s| - 1]);
    }
    TrimKeepsUnpadded(s);
    Utf8.AsciiWellFormed(s);
    SanitizeWellFormed(s);
    StripSlashesWithoutBackslash(s);
  }

  /** Printable ASCII with no markup, no backslash and no space at either
      end, such as a sentence, comes out of `sanitizeInput` unchanged. */
  lemma SanitizePlainText(s: Bytes)
    requires forall i | 0 <= i < |s| :: 0x20 <= s[i] < 0x7F && !IsMarkup(s[i]) && s[i] != Backslash
    requires |s| > 0 ==> s[0] != 0x20 && s[|s| - 1] != 0x20
    ensures SanitizeInput(s) == s
  {
    SanitizePrintable(s);
    EscapeHtmlPlain(s);
  }

  /** When trimming and unslashing leave ill-formed UTF-8, the field comes
      out empty. */
  lemma SanitizeIllFormed(data: Bytes)
    requires !Utf8.WellFormed(StripSlashes(Trim(data)))
    ensures SanitizeInput(data) == []
  {
  }

  /** `sanitizeInput` sees its input only through `trim`: sanitizing the
      trimmed input gives the same result. */
  lemma SanitizeSeesTrimmed(data: Bytes)
    ensures SanitizeInput(Trim(data)) == SanitizeInput(data)
  {
    TrimIdempotent(data);
  }
}
