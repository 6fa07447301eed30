/**
 Small families of requests and field values worked through the model:
 each lemma pins one behaviour of the handler to inputs a reader can check
 by hand.
 */
module Scenarios {
  import opened Bytes
  import opened Sanitize
  import opened Handler
  import Utf8

  /** A one-byte markup character such as `&` grows to a four- to six-byte
      entity, so a one-character name made of it passes the 2..100 byte
      name check: `&` alone becomes `&amp;`. */
  lemma MarkupNameGrows(name: Bytes)
    requires |name| == 1 && IsMarkup(name[0])
    ensures SanitizeInput(name) == EscapeByte(name[0])
    ensures 4 <= |SanitizeInput(name)| <= 6 && NameLengthOk(SanitizeInput(name))
    ensures name == [Ampersand] ==> SanitizeInput(name) == AmpEntity
  {
    var b := name[0];
    MarkupIsPrintable(b);
    SanitizePrintable(name);
    assert name == [b] + [];
    EscapeHtmlCons(b, []);
  }

  /** The five markup bytes are printable ASCII other than space and
      backslash. */
  lemma MarkupIsPrintable(b: byte)
    requires IsMarkup(b)
    ensures 0x20 < b < 0x7F && b != Backslash
  {
  }

  /** A `0` surrounded by whitespace trims to `"0"`, which PHP's `empty()`
      treats as empty. */
  lemma PaddedZeroIsEmpty(s: Bytes, before: Bytes, after: Bytes)
    requires forall i | 0 <= i < |before| :: IsTrimmable(before[i])
    requires forall i | 0 <= i < |after| :: IsTrimmable(after[i])
    requires s == before + [DigitZero] + after
    ensures SanitizeInput(s) == [DigitZero]
    ensures PhpEmpty(SanitizeInput(s))
  {
    var z := Trim(s);
    assert z == [DigitZero] by {
      TrimPadded(before, [DigitZero], after);
    }
    assert SanitizeInput(z) == z by {
      SanitizePlainText(z);
    }
    SanitizeSeesTrimmed(s);
  }

  /** A lone byte outside ASCII is never a UTF-8 character on its own, so
      `htmlspecialchars` gives up and the field sanitizes to the empty
      string. */
  lemma LoneHighByteIsEmpty(s: Bytes)
    requires |s| == 1 && s[0] >= 0x80
    ensures SanitizeInput(s) == []
  {
    assert StripSlashes(Trim(s)) == s by {
      assert IsTrimmedSlice(s, 0, 1);
      TrimIsTrimmedSlice(s, 0, 1);
      assert s[0..1] == s;
      StripSlashesWithoutBackslash(s);
    }
    assert !Utf8.WellFormed(s) by {
      assert Utf8.FirstCharLength(s) == 0;
    }
    SanitizeIllFormed(s);
  }
}
