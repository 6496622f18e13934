/**
 * The two strings the chat routes build from integer ids: the canonical
 * private-chat name `private:{min}:{max}` and the dedup source
 * `{sender}_{chat}_{text}` whose digest is a message's dedup key.
 *
 * Integers are rendered as Python's `str(int)` does: decimal digits, with a
 * leading `-` for a negative number.
 */
module Keys {

  predicate IsDigit(c: char) {
    '0' <= c <= '9'
  }

  function DigitChar(d: nat): (c: char)
    requires d < 10
    ensures IsDigit(c)
  {
    "0123456789"[d]
  }

  function NatToDecimal(n: nat): string {
    if n < 10 then [DigitChar(n)] else NatToDecimal(n / 10) + [DigitChar(n % 10)]
  }

  /** `str(i)` for an integer `i`. */
  function IntToDecimal(i: int): string {
    if i < 0 then "-" + NatToDecimal(-i) else NatToDecimal(i)
  }

  function Min(a: int, b: int): int { if a <= b then a else b }

  function Max(a: int, b: int): int { if a <= b then b else a }

  /** `f"private:{min(a, b)}:{max(a, b)}"`. */
  function PrivateChatName(a: int, b: int): string {
    "private:" + IntToDecimal(Min(a, b)) + ":" + IntToDecimal(Max(a, b))
  }

  /** `f"{sender}_{chat}_{text}"`, the string that is hashed into a dedup key. */
  function DedupSource(sender: int, chat: int, text: string): string {
    IntToDecimal(sender) + "_" + IntToDecimal(chat) + "_" + text
  }

  // ---------------------------------------------------------------------------

  /** The rendering of a natural number is a non-empty run of digits. */
  lemma {:induction false} NatToDecimalDigits(n: nat)
    ensures |NatToDecimal(n)| >= 1
    ensures forall k :: 0 <= k < |NatToDecimal(n)| ==> IsDigit(NatToDecimal(n)[k])
    ensures n >= 10 ==> |NatToDecimal(n)| >= 2
  {
    if n >= 10 {
      NatToDecimalDigits(n / 10);
    }
  }

  /** Distinct natural numbers have distinct renderings. */
  lemma {:induction false} NatToDecimalInjective(n: nat, m: nat)
    requires NatToDecimal(n) == NatToDecimal(m)
    ensures n == m
  {
    NatToDecimalDigits(n);
    NatToDecimalDigits(m);
    if n >= 10 && m >= 10 {
      var s, t := NatToDecimal(n), NatToDecimal(m);
      assert s[..|s| - 1] == NatToDecimal(n / 10);
      assert t[..|t| - 1] == NatToDecimal(m / 10);
      NatToDecimalInjective(n / 10, m / 10);
      assert s[|s| - 1] == DigitChar(n % 10) && t[|t| - 1] == DigitChar(m % 10);
      DigitCharInjective(n % 10, m % 10);
    } else if n < 10 && m < 10 {
      DigitCharInjective(n, m);
    }
  }

  lemma DigitCharInjective(d: nat, e: nat)
    requires d < 10 && e < 10 && DigitChar(d) == DigitChar(e)
    ensures d == e
  {
  }

  /** A rendered integer is made of digits and at most a leading minus sign. */
  lemma IntToDecimalChars(i: int)
    ensures |IntToDecimal(i)| >= 1
    ensures forall k :: 0 <= k < |IntToDecimal(i)| ==> IsDigit(IntToDecimal(i)[k]) || IntToDecimal(i)[k] == '-'
    ensures (IntToDecimal(i)[0] == '-') <==> i < 0
  {
    if i < 0 {
      NatToDecimalDigits(-i);
    } else {
      NatToDecimalDigits(i);
    }
  }

  /** `str` is injective on integers. */
  lemma IntToDecimalInjective(i: int, j: int)
    ensures IntToDecimal(i) == IntToDecimal(j) <==> i == j
  {
    if IntToDecimal(i) == IntToDecimal(j) {
      NatToDecimalHead(if i < 0 then -i else i);
      NatToDecimalHead(if j < 0 then -j else j);
      assert i < 0 <==> IntToDecimal(i)[0] == '-';
      assert j < 0 <==> IntToDecimal(j)[0] == '-';
      if i < 0 {
        assert IntToDecimal(i)[1..] == NatToDecimal(-i);
        assert IntToDecimal(j)[1..] == NatToDecimal(-j);
        NatToDecimalInjective(-i, -j);
      } else {
        NatToDecimalInjective(i, j);
      }
    }
  }

  /** The rendering of a natural number starts with a digit. */
  lemma {:induction false} NatToDecimalHead(n: nat)
    ensures |NatToDecimal(n)| >= 1 && IsDigit(NatToDecimal(n)[0])
  {
    if n >= 10 {
      NatToDecimalHead(n / 10);
    }
  }

  /** A separator that occurs in neither head splits two equal strings the same way. */
  lemma SplitAtSeparator(p: string, r: string, q: string, u: string, sep: char)
    requires sep !in p && sep !in q
    requires p + [sep] + r == q + [sep] + u
    ensures p == q && r == u
  {
    var s := p + [sep] + r;
    assert s[|p|] == sep && forall k :: 0 <= k < |p| ==> s[k] == p[k];
    assert s[|q|] == sep && forall k :: 0 <= k < |q| ==> s[k] == q[k];
    assert |p| == |q|;
    assert p == s[..|p|] == q;
    assert r == s[|p| + 1..] == u;
  }

  lemma NoSeparatorIn(i: int, sep: char)
    requires sep != '-' && !IsDigit(sep)
    ensures sep !in IntToDecimal(i)
  {
    IntToDecimalChars(i);
  }

  /** The private chat name does not depend on who sends to whom. */
  lemma PrivateChatNameSymmetric(a: int, b: int)
    ensures PrivateChatName(a, b) == PrivateChatName(b, a)
  {
  }

  /** Two pairs get the same private chat name exactly when they are the same unordered pair. */
  lemma PrivateChatNameInjective(a: int, b: int, c: int, d: int)
    ensures PrivateChatName(a, b) == PrivateChatName(c, d) <==> (a == c && b == d) || (a == d && b == c)
  {
    if PrivateChatName(a, b) == PrivateChatName(c, d) {
      var x, y := IntToDecimal(Min(a, b)), IntToDecimal(Max(a, b));
      var x', y' := IntToDecimal(Min(c, d)), IntToDecimal(Max(c, d));
      assert PrivateChatName(a, b) == "private:" + (x + [':'] + y);
      assert PrivateChatName(c, d) == "private:" + (x' + [':'] + y');
      assert x + [':'] + y == PrivateChatName(a, b)[8..] == x' + [':'] + y';
      NoSeparatorIn(Min(a, b), ':');
      NoSeparatorIn(Min(c, d), ':');
      SplitAtSeparator(x, y, x', y', ':');
      IntToDecimalInjective(Min(a, b), Min(c, d));
      IntToDecimalInjective(Max(a, b), Max(c, d));
    }
  }

  /**
   * The dedup source determines the sender, the chat and the text, in that
   * order: integer renderings contain no `_`, so equal sources come from equal
   * triples and only from them.
   */
  lemma DedupSourceInjective(sender: int, chat: int, text: string, sender': int, chat': int, text': string)
    ensures DedupSource(sender, chat, text) == DedupSource(sender', chat', text') <==>
              sender == sender' && chat == chat' && text == text'
  {
    if DedupSource(sender, chat, text) == DedupSource(sender', chat', text') {
      var a, b := IntToDecimal(sender), IntToDecimal(chat);
      var a', b' := IntToDecimal(sender'), IntToDecimal(chat');
      assert DedupSource(sender, chat, text) == a + ['_'] + (b + ['_'] + text);
      assert DedupSource(sender', chat', text') == a' + ['_'] + (b' + ['_'] + text');
      NoSeparatorIn(sender, '_');
      NoSeparatorIn(sender', '_');
      SplitAtSeparator(a, b + ['_'] + text, a', b' + ['_'] + text', '_');
      NoSeparatorIn(chat, '_');
      NoSeparatorIn(chat', '_');
      SplitAtSeparator(b, text, b', text', '_');
      IntToDecimalInjective(sender, sender');
      IntToDecimalInjective(chat, chat');
    }
  }
}
