/** Licence-key formatting: `generateKey` in script.js.

    The source draws each character with `Math.floor(Math.random() * 36)`.
    Here the sixteen drawn indices are an input (`picks`), so the key is a
    deterministic function of them: four groups of four characters from
    `Chars`, joined by `-`. */
module KeyFormat {

  /** The alphabet `generateKey` draws from. */
  const Chars: string := "ABCDEFGHIJKLMNOPQRSTUVWXYZ0123456789"

  /** Length of a generated key: 4 groups of 4 characters and 3 separators. */
  const KeyLength: nat := 19

  /** The characters of the pattern class `[A-Z0-9]`. */
  predicate IsKeyChar(c: char) {
    'A' <= c <= 'Z' || '0' <= c <= '9'
  }

  /** Sixteen alphabet indices, one per drawn character, each as
      `Math.floor(Math.random() * chars.length)` yields it. */
  predicate ValidPicks(picks: seq<int>) {
    |picks| == 16 && forall k :: 0 <= k < |picks| ==> 0 <= picks[k] < |Chars|
  }

  /** A string of the form `^[A-Z0-9]{4}-[A-Z0-9]{4}-[A-Z0-9]{4}-[A-Z0-9]{4}$`:
      every fifth character (positions 4, 9, 14) is the separator. */
  predicate WellFormedKey(s: string) {
    |s| == KeyLength &&
    forall p :: 0 <= p < |s| ==> if p % 5 == 4 then s[p] == '-' else IsKeyChar(s[p])
  }

  /** Group `g` of the key: the characters of picks 4g .. 4g+3, in order. */
  function Group(picks: seq<int>, g: nat): string
    requires ValidPicks(picks) && g < 4
  {
    seq(4, j requires 0 <= j < 4 => Chars[picks[4 * g + j]])
  }

  /** The key the picks produce: the four groups joined by `-`. */
  function KeyOf(picks: seq<int>): string
    requires ValidPicks(picks)
  {
    Group(picks, 0) + "-" + Group(picks, 1) + "-" + Group(picks, 2) + "-" + Group(picks, 3)
  }

  /** What the outer loop of `generateKey` has built after `n` rounds: the
      first `n` groups, each but the last followed by a separator. */
  function KeyPrefix(picks: seq<int>, n: nat): string
    requires ValidPicks(picks) && n <= 4
  {
    if n == 0 then ""
    else KeyPrefix(picks, n - 1) + Group(picks, n - 1) + (if n - 1 < 3 then "-" else "")
  }

  /** `generateKey`: nested loops append one drawn character at a time, and a
      separator after each of the first three groups. */
  method GenerateKey(picks: seq<int>) returns (key: string)
    requires ValidPicks(picks)
    ensures key == KeyOf(picks)
    ensures WellFormedKey(key)
  {
    key := "";
    for i := 0 to 4
      invariant key == KeyPrefix(picks, i)
    {
      for j := 0 to 4
        invariant key == KeyPrefix(picks, i) + Group(picks, i)[..j]
      {
        key := key + [Chars[picks[4 * i + j]]];
      }
      if i < 3 {
        key := key + "-";
      }
    }
    KeyPrefixComplete(picks);
    KeyOfWellFormed(picks);
  }

  // ---------------------------------------------------------------------
  // The alphabet

  /** Position of an alphabet character in `Chars`. */
  function IndexOf(c: char): int
    requires IsKeyChar(c)
  {
    if 'A' <= c <= 'Z' then c as int - 'A' as int else c as int - '0' as int + 26
  }

  /** `Chars` holds the letters A-Z, then the digits 0-9, each at its index. */
  lemma CharsLayout()
    ensures |Chars| == 36
    ensures forall i :: 0 <= i < 26 ==> Chars[i] as int == 'A' as int + i
    ensures forall i :: 26 <= i < 36 ==> Chars[i] as int == '0' as int + i - 26
  {
  }

  /** Every alphabet character is a key character, and `IndexOf` finds it. */
  lemma IndexOfChars(i: int)
    requires 0 <= i < |Chars|
    ensures IsKeyChar(Chars[i]) && IndexOf(Chars[i]) == i
  {
    CharsLayout();
  }

  /** Every key character is in the alphabet, at the index `IndexOf` gives. */
  lemma CharsIndexOf(c: char)
    requires IsKeyChar(c)
    ensures 0 <= IndexOf(c) < |Chars| && Chars[IndexOf(c)] == c
  {
    CharsLayout();
  }

  // ---------------------------------------------------------------------
  // Shape of a generated key

  /** Length of the first `n` groups with their separators. */
  function PrefixLength(n: nat): nat
    requires n <= 4
  {
    if n == 4 then KeyLength else 5 * n
  }

  /** Character `p` of the partial key after `n` rounds of the outer loop. */
  lemma {:induction false} KeyPrefixAt(picks: seq<int>, n: nat, p: int)
    requires ValidPicks(picks) && n <= 4 && 0 <= p < PrefixLength(n)
    ensures |KeyPrefix(picks, n)| == PrefixLength(n)
    ensures KeyPrefix(picks, n)[p] == if p % 5 == 4 then '-' else Chars[picks[p - p / 5]]
  {
    var prev, group := KeyPrefix(picks, n - 1), Group(picks, n - 1);
    var sep := if n - 1 < 3 then "-" else "";
    assert KeyPrefix(picks, n) == prev + group + sep;
    if n > 1 {
      KeyPrefixAt(picks, n - 1, 0);
    }
    assert |prev| == 5 * (n - 1);
    if p < |prev| {
      KeyPrefixAt(picks, n - 1, p);
      assert KeyPrefix(picks, n)[p] == prev[p];
    } else {
      var q := p - 5 * (n - 1);
      assert p / 5 == n - 1 && p % 5 == q;
      if q < 4 {
        assert KeyPrefix(picks, n)[p] == group[q];
        assert group[q] == Chars[picks[4 * (n - 1) + q]];
        assert p - p / 5 == 4 * (n - 1) + q;
      } else {
        assert KeyPrefix(picks, n)[p] == sep[0];
      }
    }
  }

  /** Character `p` of the key: a separator at every fifth position, and
      otherwise the character of pick `p - p / 5` (picks are consumed in order). */
  lemma KeyOfAt(picks: seq<int>, p: int)
    requires ValidPicks(picks) && 0 <= p < KeyLength
    ensures |KeyOf(picks)| == KeyLength
    ensures KeyOf(picks)[p] == if p % 5 == 4 then '-' else Chars[picks[p - p / 5]]
  {
    KeyPrefixComplete(picks);
    KeyPrefixAt(picks, 4, p);
  }

  /** Every generated key matches the key pattern. */
  lemma KeyOfWellFormed(picks: seq<int>)
    requires ValidPicks(picks)
    ensures WellFormedKey(KeyOf(picks))
  {
    KeyOfAt(picks, 0);
    forall p | 0 <= p < KeyLength
      ensures if p % 5 == 4 then KeyOf(picks)[p] == '-' else IsKeyChar(KeyOf(picks)[p])
    {
      KeyOfAt(picks, p);
      if p % 5 != 4 {
        IndexOfChars(picks[p - p / 5]);
      }
    }
  }

  /** The outer loop ends with exactly the joined key: no trailing separator. */
  lemma KeyPrefixComplete(picks: seq<int>)
    requires ValidPicks(picks)
    ensures KeyPrefix(picks, 4) == KeyOf(picks)
  {
    var g0, g1, g2, g3 := Group(picks, 0), Group(picks, 1), Group(picks, 2), Group(picks, 3);
    assert KeyPrefix(picks, 1) == g0 + "-";
    assert KeyPrefix(picks, 2) == g0 + "-" + g1 + "-";
    assert KeyPrefix(picks, 3) == g0 + "-" + g1 + "-" + g2 + "-";
    assert KeyPrefix(picks, 4) == g0 + "-" + g1 + "-" + g2 + "-" + g3 + "";
    assert g0 + "-" + g1 + "-" + g2 + "-" + g3 + "" == g0 + "-" + g1 + "-" + g2 + "-" + g3;
  }

  // ---------------------------------------------------------------------
  // Reading the picks back

  /** Position in the key of pick `k`: after `k / 4` separators. */
  function PickPosition(k: int): int {
    k + k / 4
  }

  lemma PickPositionInverse(k: int)
    requires 0 <= k < 16
    ensures 0 <= PickPosition(k) < KeyLength
    ensures PickPosition(k) % 5 != 4
    ensures PickPosition(k) - PickPosition(k) / 5 == k
  {
  }

  /** The picks a well-formed key was made from. */
  function PicksOf(s: string): (picks: seq<int>)
    requires WellFormedKey(s)
    ensures |picks| == 16
  {
    seq(16, k requires 0 <= k < 16 =>
      PickPositionInverse(k);
      IndexOf(s[PickPosition(k)]))
  }

  /** Decoding a generated key gives back the picks it was made from. */
  lemma DecodeEncode(picks: seq<int>)
    requires ValidPicks(picks)
    ensures WellFormedKey(KeyOf(picks))
    ensures PicksOf(KeyOf(picks)) == picks
  {
    KeyOfWellFormed(picks);
    var back := PicksOf(KeyOf(picks));
    forall k | 0 <= k < 16
      ensures back[k] == picks[k]
    {
      PickPositionInverse(k);
      KeyOfAt(picks, PickPosition(k));
      IndexOfChars(picks[k]);
    }
  }

  /** Every well-formed key is the key of some picks: the pattern describes
      exactly the strings `generateKey` can return. */
  lemma EncodeDecode(s: string)
    requires WellFormedKey(s)
    ensures ValidPicks(PicksOf(s))
    ensures KeyOf(PicksOf(s)) == s
  {
    var picks := PicksOf(s);
    forall k | 0 <= k < 16
      ensures 0 <= picks[k] < |Chars| && Chars[picks[k]] == s[PickPosition(k)]
    {
      PickPositionInverse(k);
      CharsIndexOf(s[PickPosition(k)]);
    }
    forall p | 0 <= p < KeyLength
      ensures KeyOf(picks)[p] == s[p]
    {
      KeyOfAt(picks, p);
      if p % 5 != 4 {
        PickPositionInverse(p - p / 5);
      }
    }
    KeyOfAt(picks, 0);
  }

  /** Different picks give different keys: the only source of a repeated key
      is a repeated draw (no uniqueness check exists). */
  lemma KeyOfInjective(a: seq<int>, b: seq<int>)
    requires ValidPicks(a) && ValidPicks(b)
    requires KeyOf(a) == KeyOf(b)
    ensures a == b
  {
    DecodeEncode(a);
    DecodeEncode(b);
  }
}
