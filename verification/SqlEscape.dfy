/** Quote doubling for SQL string literals (section 5.3 of ISO/IEC 9075-2), in place in a buffer that
    grows by one character per quote. */
module SqlEscape {
  import opened Bytes

  const QUOTE: char := '\''
  const NUL: char := '\0'

  /** s with every quote doubled. */
  function Doubled(s: string): string {
    if s == [] then [] else Doubled(s[..|s| - 1]) + if s[|s| - 1] == QUOTE then [QUOTE, QUOTE] else [s[|s| - 1]]
  }

  /** What a quoted literal contains, and what follows it: a doubled quote stands for one, a single one
      ends the literal. */
  datatype Literal = Literal(content: string, rest: string) | Unterminated

  function Lex(s: string): Literal {
    if s == [] then Unterminated
    else if s[0] != QUOTE then Prepend(s[0], Lex(s[1..]))
    else if |s| > 1 && s[1] == QUOTE then Prepend(QUOTE, Lex(s[2..]))
    else Literal([], s[1..])
  }

  function Prepend(c: char, l: Literal): Literal {
    if l.Unterminated? then l else Literal([c] + l.content, l.rest)
  }

  lemma {:induction false} DoubledConcat(a: string, b: string)
    ensures Doubled(a + b) == Doubled(a) + Doubled(b)
    decreases |b|
  {
    if b == [] {
      assert a + b == a;
    } else {
      assert (a + b)[..|a + b| - 1] == a + b[..|b| - 1];
      DoubledConcat(a, b[..|b| - 1]);
    }
  }

  lemma DoubledOne(c: char)
    ensures Doubled([c]) == if c == QUOTE then [QUOTE, QUOTE] else [c]
  {
  }

  lemma DoubledCons(c: char, tail: string)
    ensures Doubled([c] + tail) == (if c == QUOTE then [QUOTE, QUOTE] else [c]) + Doubled(tail)
  {
    DoubledConcat([c], tail);
    DoubledOne(c);
  }

  lemma LexOne(c: char, later: string)
    ensures c != QUOTE ==> Lex([c] + later) == Prepend(c, Lex(later))
    ensures c == QUOTE ==> Lex([QUOTE, QUOTE] + later) == Prepend(c, Lex(later))
  {
  }

  lemma LexClose(rest: string)
    requires rest == [] || rest[0] != QUOTE
    ensures Lex([QUOTE] + rest) == Literal([], rest)
  {
  }

  /** Quoting is invertible: a literal written as the doubled string and a closing quote reads back as
      the string itself, and leaves exactly what follows. */
  lemma {:induction false} EscapedLiteralReadsBack(s: string, rest: string)
    requires rest == [] || rest[0] != QUOTE
    ensures Lex(Doubled(s) + ([QUOTE] + rest)) == Literal(s, rest)
  {
    hide Lex;
    if s == [] {
      assert Doubled(s) + ([QUOTE] + rest) == [QUOTE] + rest;
      LexClose(rest);
    } else {
      hide Doubled;
      var c, tail := s[0], s[1..];
      assert s == [c] + tail;
      DoubledCons(c, tail);
      EscapedLiteralReadsBack(tail, rest);
      var later := Doubled(tail) + ([QUOTE] + rest);
      var first := if c == QUOTE then [QUOTE, QUOTE] else [c];
      AppendAssoc(first, Doubled(tail), [QUOTE] + rest);
      LexOne(c, later);
    }
  }

  /** Hence different strings never escape to the same text. */
  lemma EscapeInjective(a: string, b: string)
    requires Doubled(a) == Doubled(b)
    ensures a == b
  {
    EscapedLiteralReadsBack(a, []);
    EscapedLiteralReadsBack(b, []);
  }

  /** strchr(s + from, '\''): the first quote before the terminator, or -1. */
  method FindQuote(dup: array<char>, from: nat) returns (pos: int)
    requires from < dup.Length && dup[dup.Length - 1] == NUL
    requires forall i :: from <= i < dup.Length - 1 ==> dup[i] != NUL
    ensures pos == -1 ==> forall i :: from <= i < dup.Length ==> dup[i] != QUOTE
    ensures pos != -1 ==> from <= pos < dup.Length - 1 && dup[pos] == QUOTE && forall i :: from <= i < pos ==> dup[i] != QUOTE
  {
    pos := from;
    while dup[pos] != NUL
      invariant from <= pos < dup.Length && forall i :: from <= i < pos ==> dup[i] != QUOTE
      decreases dup.Length - pos
    {
      if dup[pos] == QUOTE {
        return;
      }
      pos := pos + 1;
    }
    pos := -1;
  }

  /** realloc by one and memmove(badchr + 1, badchr, ...): opens a gap by repeating the character at pos. */
  method RepeatAt(dup: array<char>, pos: nat) returns (grown: array<char>)
    requires pos < dup.Length
    ensures fresh(grown) && grown[..] == dup[..pos + 1] + dup[pos..]
  {
    grown := new char[dup.Length + 1](_ => NUL);
    forall i | 0 <= i < dup.Length {
      grown[i] := dup[i];
    }
    forall i | pos <= i < dup.Length {
      grown[i + 1] := dup[i];
    }
  }

  /** The loop has doubled the quotes of s[..done], which end at searchptr; the rest of s is as it was. */
  ghost predicate Scanned(dup: string, s: string, done: nat, searchptr: nat)
    requires done <= |s|
  {
    searchptr == |Doubled(s[..done])| && dup == Doubled(s[..done]) + s[done..] + [NUL]
  }

  lemma Unscanned(dup: string, s: string, done: nat, searchptr: nat)
    requires NUL !in s && done <= |s| && Scanned(dup, s, done, searchptr)
    ensures searchptr < |dup| && dup[|dup| - 1] == NUL && |dup| == searchptr + |s| - done + 1
    ensures forall i :: searchptr <= i < |dup| - 1 ==> dup[i] == s[done + i - searchptr] && dup[i] != NUL
  {
  }

  lemma {:induction false} NoQuotes(s: string)
    requires QUOTE !in s
    ensures Doubled(s) == s
  {
    if s != [] { NoQuotes(s[..|s| - 1]); }
  }

  /** Characters that are no quote are their own doubling. */
  lemma SkippedOver(s: string, done: nat, pos: nat)
    requires done <= pos <= |s| && QUOTE !in s[done..pos]
    ensures Doubled(s[..pos]) == Doubled(s[..done]) + s[done..pos]
  {
    hide Doubled;
    NoQuotes(s[done..pos]);
    assert s[..pos] == s[..done] + s[done..pos];
    DoubledConcat(s[..done], s[done..pos]);
  }

  lemma Finished(dup: string, s: string, done: nat, searchptr: nat)
    requires done <= |s| && Scanned(dup, s, done, searchptr)
    requires forall i :: searchptr <= i < |dup| ==> dup[i] != QUOTE
    ensures dup == Doubled(s) + [NUL]
  {
    hide Doubled;
    forall i | done <= i < |s| ensures s[i] != QUOTE {
      assert dup[searchptr + (i - done)] == s[i];
    }
    SkippedOver(s, done, |s|);
    assert s[..|s|] == s;
  }

  /** Opening the gap at the next quote doubles it. */
  lemma GapOpened(dup: string, s: string, done: nat, searchptr: nat, badchr: nat)
    requires done <= |s| && Scanned(dup, s, done, searchptr)
    requires searchptr <= badchr < |dup| - 1 && dup[badchr] == QUOTE
    requires forall i :: searchptr <= i < badchr ==> dup[i] != QUOTE
    ensures var pos := done + (badchr - searchptr);
            pos < |s| && Scanned(dup[..badchr + 1] + dup[badchr..], s, pos + 1, badchr + 2)
  {
    hide Doubled;
    var pos := done + (badchr - searchptr);
    assert s[pos] == dup[badchr];
    forall i | done <= i < pos ensures s[i] != QUOTE {
      assert dup[searchptr + (i - done)] == s[i];
    }
    SkippedOver(s, done, pos);
    DoubledQuote(s, pos);
    assert dup[..badchr + 1] == Doubled(s[..pos]) + [QUOTE];
    assert dup[badchr..] == [QUOTE] + s[pos + 1..] + [NUL];
  }

  lemma DoubledQuote(s: string, pos: nat)
    requires pos < |s| && s[pos] == QUOTE
    ensures Doubled(s[..pos + 1]) == Doubled(s[..pos]) + [QUOTE, QUOTE]
  {
    assert s[..pos + 1][..pos] == s[..pos];
  }

  /** escape: for every C string it terminates with the doubled string and its terminator. */
  method Escape(s: string) returns (dup: array<char>)
    requires NUL !in s
    ensures fresh(dup) && dup[..] == Doubled(s) + [NUL]
  {
    dup := new char[|s| + 1](i => if 0 <= i < |s| then s[i] else NUL);
    var searchptr: nat := 0;
    ghost var done := 0;
    assert dup[..] == Doubled(s[..done]) + s[done..] + [NUL];
    hide Doubled;
    while true
      invariant fresh(dup) && done <= |s| && Scanned(dup[..], s, done, searchptr)
      decreases |s| - done
    {
      Unscanned(dup[..], s, done, searchptr);
      assert forall i :: searchptr <= i < dup.Length ==> dup[i] == dup[..][i];
      var badchr := FindQuote(dup, searchptr);
      ghost var before := dup[..];
      if badchr == -1 {
        Finished(before, s, done, searchptr);
        break;
      }
      dup := RepeatAt(dup, badchr);
      GapOpened(before, s, done, searchptr, badchr);
      done := done + (badchr - searchptr) + 1;
      searchptr := badchr + 2;
    }
  }
}
