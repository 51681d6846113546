/**
 * The verification token of both verification dialogs
 * (src/components/common/UserVerificationDialog.tsx and
 * src/components/common/UserVerification.tsx): a fixed prefix followed by
 * characters 2 to 9 of `Math.random().toString(36)`.
 *
 * The random number is a parameter, given by the base-36 digits after the
 * point of its rendering; an empty digit sequence is the number 0, which
 * renders as "0".
 */
module Token {
  import opened JsText

  const TokenPrefix: string := "commiters-tj-verify-"

  /** The most characters the token takes from the random number. */
  const SuffixLength: nat := 8

  predicate IsBase36Char(c: char) {
    '0' <= c <= '9' || 'a' <= c <= 'z'
  }

  predicate Base36Digits(digits: seq<nat>) {
    forall k | 0 <= k < |digits| :: digits[k] < 36
  }

  /** A base-36 digit as `toString(36)` writes it: 0-9, then lower-case a-z. */
  function Base36Char(d: nat): (c: char)
    requires d < 36
    ensures IsBase36Char(c)
    ensures d < 10 <==> '0' <= c <= '9'
  {
    if d < 10 then (d + '0' as int) as char else (d - 10 + 'a' as int) as char
  }

  /** Different digits are written differently. */
  lemma Base36CharInjective(d: nat, e: nat)
    requires d < 36 && e < 36 && Base36Char(d) == Base36Char(e)
    ensures d == e
  {
  }

  /** `x.toString(36)` for 0 <= x < 1 with the given fraction digits. */
  function FractionString(digits: seq<nat>): (r: string)
    requires Base36Digits(digits)
    ensures digits == [] ==> r == "0"
    ensures digits != [] ==> |r| == |digits| + 2 && r[..2] == "0."
    ensures digits != [] ==> forall k | 0 <= k < |digits| :: r[k + 2] == Base36Char(digits[k])
  {
    if digits == [] then "0"
    else "0." + seq(|digits|, k requires 0 <= k < |digits| => Base36Char(digits[k]))
  }

  /** `s.slice(start, end)` for non-negative bounds: both are clamped to the length. */
  function Slice(s: string, start: nat, end: nat): (r: string)
    ensures start <= end ==> |r| <= end - start
    ensures end <= start ==> r == []
    ensures start < |s| && start <= end ==> |r| == (if end < |s| then end else |s|) - start
    ensures forall k | 0 <= k < |r| :: start + k < |s| && r[k] == s[start + k]
  {
    var from := if start < |s| then start else |s|;
    var to := if end < |s| then end else |s|;
    if from < to then s[from..to] else []
  }

  /** `generateToken()` for the random number with the given fraction digits. */
  function GenerateToken(digits: seq<nat>): (t: string)
    requires Base36Digits(digits)
    ensures StartsWith(t, TokenPrefix)
    ensures |t| - |TokenPrefix| == if |digits| < SuffixLength then |digits| else SuffixLength
    ensures forall k | 0 <= k < |t| - |TokenPrefix| :: t[|TokenPrefix| + k] == Base36Char(digits[k])
  {
    var suffix := Slice(FractionString(digits), 2, 2 + SuffixLength);
    var t := TokenPrefix + suffix;
    assert t[..|TokenPrefix|] == TokenPrefix;
    t
  }

  /** The token's suffix is at most eight base-36 characters. */
  lemma TokenShape(digits: seq<nat>)
    requires Base36Digits(digits)
    ensures var t := GenerateToken(digits);
      |t| <= |TokenPrefix| + SuffixLength && forall k | |TokenPrefix| <= k < |t| :: IsBase36Char(t[k])
  {
    var t := GenerateToken(digits);
    forall k | |TokenPrefix| <= k < |t| ensures IsBase36Char(t[k]) {
      assert t[|TokenPrefix| + (k - |TokenPrefix|)] == Base36Char(digits[k - |TokenPrefix|]);
    }
  }

  /** The token gives back the first eight digits of its random number. */
  lemma TokenDeterminesDigits(d1: seq<nat>, d2: seq<nat>)
    requires Base36Digits(d1) && Base36Digits(d2)
    requires |d1| >= SuffixLength && |d2| >= SuffixLength
    requires GenerateToken(d1) == GenerateToken(d2)
    ensures d1[..SuffixLength] == d2[..SuffixLength]
  {
    var t := GenerateToken(d1);
    var n := |TokenPrefix|;
    forall k | 0 <= k < SuffixLength ensures d1[k] == d2[k] {
      assert t[n + k] == Base36Char(d1[k]) == Base36Char(d2[k]);
      Base36CharInjective(d1[k], d2[k]);
    }
  }

  /** Only the first eight digits matter: numbers that agree on them give the same token. */
  lemma DigitsDetermineToken(d1: seq<nat>, d2: seq<nat>)
    requires Base36Digits(d1) && Base36Digits(d2)
    requires |d1| >= SuffixLength && |d2| >= SuffixLength
    requires d1[..SuffixLength] == d2[..SuffixLength]
    ensures GenerateToken(d1) == GenerateToken(d2)
  {
    TokenOfFirstDigits(d1);
    TokenOfFirstDigits(d2);
  }

  lemma TokenOfFirstDigits(d: seq<nat>)
    requires Base36Digits(d) && |d| >= SuffixLength
    ensures GenerateToken(d) == GenerateToken(d[..SuffixLength])
  {
    var t1, t2 := GenerateToken(d), GenerateToken(d[..SuffixLength]);
    var n := |TokenPrefix|;
    forall k | 0 <= k < |t1| ensures t1[k] == t2[k] {
      if k < n {
        assert t1[k] == t1[..n][k] && t2[k] == t2[..n][k];
      } else {
        var j := k - n;
        assert t1[n + j] == Base36Char(d[j]);
        assert t2[n + j] == Base36Char(d[..SuffixLength][j]);
      }
    }
  }
}
