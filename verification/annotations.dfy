/** The data-annotation attributes the models and DTOs declare, with the
    meaning ASP.NET Core's validators give them.  An `[ApiController]` rejects
    a request body that breaks one of them with an automatic 400 before the
    action runs. */
module Annotations {
  import opened Common
  import opened Text

  /** `[Required]` on a string: not null, empty or white space. */
  predicate Required(s: string)
  {
    !NetBlank(s)
  }

  /** `[Required]` on a nullable string. */
  predicate RequiredOpt(s: Option<string>)
  {
    s.Some? && Required(s.value)
  }

  /** `[MaxLength(n)]` / `[StringLength(n)]` on a non-null string: the
      validators compare `string.Length`, a count of UTF-16 code units. */
  predicate LengthAtMost(s: string, n: nat)
  {
    Utf16Length(s) <= n
  }

  /** `[MaxLength(n)]` / `[StringLength(n)]`; a null value passes. */
  predicate MaxLen(s: Option<string>, n: nat)
  {
    s.None? || LengthAtMost(s.value, n)
  }

  /** The limit counts code units, not characters: a name of 51 emoji has
      fewer than 100 characters and still breaks `[MaxLength(100)]`. */
  lemma AstralTextCountsTwice(s: string)
    requires |s| == 51 && forall i | 0 <= i < |s| :: s[i] == '\U{1F600}'
    ensures |s| <= 100 && !LengthAtMost(s, 100)
  {
    assert forall i | 0 <= i < |s| :: s[i] > '\U{FFFF}';
  }

  /** `[EmailAddress]`: exactly one '@', neither first nor last; null passes. */
  predicate EmailAddress(s: string)
  {
    '@' in s && 0 < IndexOf(s, '@') < |s| - 1 && '@' !in s[IndexOf(s, '@') + 1..]
  }

  /** The `[EmailAddress]` test as the validator writes it: the first and the
      last '@' are the same position, which is neither the first nor the last. */
  lemma EmailAddressIffSingleInnerAt(s: string)
    ensures EmailAddress(s) <==>
      exists k | 0 < k < |s| - 1 :: s[k] == '@' && forall j | 0 <= j < |s| && j != k :: s[j] != '@'
  {
    if EmailAddress(s) {
      var k := IndexOf(s, '@');
      forall j | 0 <= j < |s| && j != k ensures s[j] != '@' {
        if j < k {
          assert s[j] == s[..k][j];
        } else {
          assert s[j] == s[k + 1..][j - k - 1];
        }
      }
    }
    if exists k | 0 < k < |s| - 1 :: s[k] == '@' && forall j | 0 <= j < |s| && j != k :: s[j] != '@' {
      var k :| 0 < k < |s| - 1 && s[k] == '@' && forall j | 0 <= j < |s| && j != k :: s[j] != '@';
      assert '@' in s;
      var f := IndexOf(s, '@');
      assert f == k;
      var tail := s[k + 1..];
      forall j | 0 <= j < |tail| ensures tail[j] != '@' {
        assert tail[j] == s[k + 1 + j];
      }
    }
  }

  /** Characters `[Phone]` accepts besides digits and white space ('+' is
      removed before the test). */
  predicate PhonePunctuation(c: char)
  {
    c == '+' || c == '-' || c == '.' || c == '(' || c == ')'
  }

  /** `[Phone]`: at least one digit, and nothing but digits, white space and
      the punctuation above. */
  predicate Phone(s: string)
  {
    (exists i | 0 <= i < |s| :: IsDigit(s[i]))
    && forall i | 0 <= i < |s| :: IsDigit(s[i]) || IsNetSpace(s[i]) || PhonePunctuation(s[i])
  }
}
