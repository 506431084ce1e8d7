/**
  The key format of the table: `\d{2}[A-Z]{2}\d{2}`, matched against the whole
  string (Java's `String.matches` anchors at both ends). Without the
  UNICODE_CHARACTER_CLASS flag Java's `\d` is the ASCII class [0-9].
 */
module KeyFormat {

  /** The two single-character classes the pattern is built from. */
  datatype CharClass = Digit | Upper

  predicate InClass(c: char, cls: CharClass) {
    match cls
    case Digit => '0' <= c <= '9'
    case Upper => 'A' <= c <= 'Z'
  }

  /** `KEY_FORMAT`: two digits, two upper-case letters, two digits. */
  const KEY_FORMAT: seq<CharClass> := [Digit, Digit, Upper, Upper, Digit, Digit]

  /** Whole-string match of `s` against a pattern of one-character classes. */
  predicate Matches(s: string, pattern: seq<CharClass>)
    decreases pattern
  {
    if pattern == [] then s == []
    else s != [] && InClass(s[0], pattern[0]) && Matches(s[1..], pattern[1..])
  }


  /** A pattern of single-character classes matches exactly the strings of its
      length whose every character lies in the class at the same position. */
  lemma {:induction false} MatchesPointwise(s: string, pattern: seq<CharClass>)
    ensures Matches(s, pattern) <==>
      |s| == |pattern| && forall i :: 0 <= i < |s| ==> InClass(s[i], pattern[i])
    decreases pattern
  {
    if pattern != [] && s != [] {
      MatchesPointwise(s[1..], pattern[1..]);
      if |s| == |pattern| && forall i :: 0 <= i < |s| ==> InClass(s[i], pattern[i]) {
        forall i | 0 <= i < |s[1..]|
          ensures InClass(s[1..][i], pattern[1..][i])
        {
          assert s[1..][i] == s[i + 1];
        }
      }
      if Matches(s, pattern) {
        forall i | 0 <= i < |s|
          ensures InClass(s[i], pattern[i])
        {
          if i > 0 {
            assert s[i] == s[1..][i - 1];
          }
        }
      }
    }
  }

  /** `validateKeyFormat`: the key matches `KEY_FORMAT` as a whole, that is,
      it is six characters: two ASCII digits, two ASCII upper-case letters and
      two ASCII digits. */
  function ValidateKeyFormat(key: string): (ok: bool)
    ensures ok <==>
      && |key| == 6
      && '0' <= key[0] <= '9' && '0' <= key[1] <= '9'
      && 'A' <= key[2] <= 'Z' && 'A' <= key[3] <= 'Z'
      && '0' <= key[4] <= '9' && '0' <= key[5] <= '9'
  {
    MatchesPointwise(key, KEY_FORMAT);
    Matches(key, KEY_FORMAT)
  }

  /** `%02d` of a number the generator draws from [10, 99], written with the
      ASCII digits of a format locale whose zero digit is '0'. */
  function TwoDigits(n: nat): (s: string)
    requires 10 <= n <= 99
    ensures |s| == 2 && '0' <= s[0] <= '9' && '0' <= s[1] <= '9'
    ensures (s[0] as int - '0' as int) * 10 + (s[1] as int - '0' as int) == n
  {
    [('0' as int + n / 10) as char, ('0' as int + n % 10) as char]
  }

  /** `generateRandomKey` with its four random draws as parameters:
      `nextInt(90) + 10`, `nextInt(26) + 'A'` twice, `nextInt(90) + 10`. */
  function GeneratedKey(left: nat, letter1: nat, letter2: nat, right: nat): (key: string)
    requires 10 <= left <= 99 && letter1 < 26 && letter2 < 26 && 10 <= right <= 99
    ensures ValidateKeyFormat(key)
  {
    TwoDigits(left) + [('A' as int + letter1) as char, ('A' as int + letter2) as char] + TwoDigits(right)
  }

  /** Distinct draws give distinct keys: the generator loses no information. */
  lemma GeneratedKeyInjective(a: nat, b: nat, c: nat, d: nat, a': nat, b': nat, c': nat, d': nat)
    requires 10 <= a <= 99 && b < 26 && c < 26 && 10 <= d <= 99
    requires 10 <= a' <= 99 && b' < 26 && c' < 26 && 10 <= d' <= 99
    requires GeneratedKey(a, b, c, d) == GeneratedKey(a', b', c', d')
    ensures a == a' && b == b' && c == c' && d == d'
  {
    var k, k' := GeneratedKey(a, b, c, d), GeneratedKey(a', b', c', d');
    assert k[..2] == TwoDigits(a) && k'[..2] == TwoDigits(a');
    assert k[4..] == TwoDigits(d) && k'[4..] == TwoDigits(d');
    assert k[2] == k'[2] && k[3] == k'[3];
  }
}
