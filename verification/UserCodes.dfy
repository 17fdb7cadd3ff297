/**
The short codes a person types on the activation page (section 6.1 of RFC 8628): how they are
generated, and why they can be matched without their hyphen.
*/
module UserCodes {
  const CHARSET := "ABCDEFGHJKMNPQRSTUVWXYZ23456789"

  /** The capital letters without I, L and O, and the digits without 0 and 1. */
  lemma CharsetSpelled(c: char)
    ensures |CHARSET| == 31
    ensures c in CHARSET <==> ('A' <= c <= 'Z' && c != 'I' && c != 'L' && c != 'O') || '2' <= c <= '9'
  {
    var letters := "ABCDEFGHJKMNPQRSTUVWXYZ";
    var digits := "23456789";
    assert CHARSET == letters + digits;
    LettersSpelled(c);
    DigitsSpelled(c);
  }

  lemma LettersSpelled(c: char)
    ensures c in "ABCDEFGHJKMNPQRSTUVWXYZ" <==> 'A' <= c <= 'Z' && c != 'I' && c != 'L' && c != 'O'
  {
    var s := "ABCDEFGHJKMNPQRSTUVWXYZ";
    if 'A' <= c <= 'H' {
      assert s[(c - 'A') as int] == c;
    } else if 'J' <= c <= 'K' {
      assert s[(c - 'J') as int + 8] == c;
    } else if 'M' <= c <= 'N' {
      assert s[(c - 'M') as int + 10] == c;
    } else if 'P' <= c <= 'Z' {
      assert s[(c - 'P') as int + 12] == c;
    }
  }

  lemma DigitsSpelled(c: char)
    ensures c in "23456789" <==> '2' <= c <= '9'
  {
    if '2' <= c <= '9' {
      assert "23456789"[(c - '2') as int] == c;
    }
  }

  /** SQL REPLACE(s, '-', ''). */
  function StripHyphens(s: string): (r: string)
    ensures '-' !in r
  {
    if s == "" then ""
    else if s[|s| - 1] == '-' then StripHyphens(s[..|s| - 1])
    else StripHyphens(s[..|s| - 1]) + [s[|s| - 1]]
  }

  lemma {:induction false} StripNothing(s: string)
    requires '-' !in s
    ensures StripHyphens(s) == s
  {
    if s != "" {
      StripNothing(s[..|s| - 1]);
      assert s == s[..|s| - 1] + [s[|s| - 1]];
    }
  }

  lemma {:induction false} StripConcat(s: string, t: string)
    ensures StripHyphens(s + t) == StripHyphens(s) + StripHyphens(t)
  {
    if t == "" {
      assert s + t == s;
    } else {
      var init := t[..|t| - 1];
      assert (s + t)[..|s + t| - 1] == s + init;
      StripConcat(s, init);
    }
  }

  lemma StripOneHyphen(s: string, t: string)
    requires '-' !in s && '-' !in t
    ensures StripHyphens(s + "-" + t) == s + t
  {
    StripConcat(s + "-", t);
    StripConcat(s, "-");
    StripNothing(s);
    StripNothing(t);
    assert StripHyphens("-") == "";
  }

  /** Four characters, a hyphen, four characters, all from the unambiguous alphabet. */
  predicate WellShaped(code: string) {
    && |code| == 9
    && code[4] == '-'
    && (forall i :: 0 <= i < 9 && i != 4 ==> code[i] in CHARSET)
  }

  function Letter(b: int): char {
    CHARSET[b % |CHARSET|]
  }

  /** Fills the nine characters from eight random bytes, in two loops around the hyphen. */
  method GenerateUserCode(b: seq<int>) returns (code: string)
    requires |b| == 8
    ensures WellShaped(code)
    ensures |StripHyphens(code)| == 8 && forall i :: 0 <= i < 8 ==> StripHyphens(code)[i] == Letter(b[i])
  {
    var chars := new char[9];
    for i := 0 to 4
      invariant forall k :: 0 <= k < i ==> chars[k] == Letter(b[k])
    {
      chars[i] := Letter(b[i]);
    }
    chars[4] := '-';
    for i := 5 to 9
      invariant chars[4] == '-'
      invariant forall k :: 0 <= k < 4 ==> chars[k] == Letter(b[k])
      invariant forall k :: 5 <= k < i ==> chars[k] == Letter(b[k - 1])
    {
      chars[i] := Letter(b[i - 1]);
    }
    code := chars[..];
    SpelledCode(code, b);
  }

  lemma CharsetIsPlain(s: string)
    requires forall i :: 0 <= i < |s| ==> s[i] in CHARSET
    ensures '-' !in s
  {
    assert '-' !in CHARSET;
  }

  /** Stripping a generated code removes its one hyphen and nothing else. */
  lemma StrippedHalves(code: string)
    requires WellShaped(code)
    ensures StripHyphens(code) == code[..4] + code[5..]
  {
    CharsetIsPlain(code[..4]);
    CharsetIsPlain(code[5..]);
    assert code == code[..4] + "-" + code[5..];
    StripOneHyphen(code[..4], code[5..]);
  }

  lemma LetterInCharset(b: int)
    ensures Letter(b) in CHARSET
  {}

  /** The code spells the eight bytes around its hyphen. */
  ghost predicate Spells(code: string, b: seq<int>) {
    && |b| == 8 && |code| == 9 && code[4] == '-'
    && (forall k :: 0 <= k < 4 ==> code[k] == Letter(b[k]))
    && (forall k :: 5 <= k < 9 ==> code[k] == Letter(b[k - 1]))
  }

  lemma SpelledShape(code: string, b: seq<int>)
    requires Spells(code, b)
    ensures WellShaped(code)
  {
    forall i | 0 <= i < 9 && i != 4 ensures code[i] in CHARSET {
      LetterInCharset(if i < 4 then b[i] else b[i - 1]);
    }
  }

  lemma SpelledCode(code: string, b: seq<int>)
    requires Spells(code, b)
    ensures WellShaped(code)
    ensures |StripHyphens(code)| == 8 && forall i :: 0 <= i < 8 ==> StripHyphens(code)[i] == Letter(b[i])
  {
    SpelledShape(code, b);
    StrippedHalves(code);
  }

  function Hyphenate(s: string): string
    requires |s| == 8
  {
    s[..4] + "-" + s[4..]
  }

  /** Putting the hyphen back undoes the stripping, so stripping is injective on generated codes. */
  lemma StripIsInjective(code: string, code': string)
    requires WellShaped(code) && WellShaped(code')
    ensures |StripHyphens(code)| == 8 && Hyphenate(StripHyphens(code)) == code
    ensures StripHyphens(code) == StripHyphens(code') <==> code == code'
  {
    StrippedHalves(code);
    StrippedHalves(code');
    assert Hyphenate(code[..4] + code[5..]) == code;
    assert Hyphenate(code'[..4] + code'[5..]) == code';
  }

  /** Outside the generated shape codes with one hyphen collide exactly when they differ only in where it stands. */
  lemma OtherShapesCollide(s: string, t: string, u: string, v: string)
    requires '-' !in s && '-' !in t && '-' !in u && '-' !in v
    ensures StripHyphens(s + "-" + t) == StripHyphens(u + "-" + v) <==> s + t == u + v
  {
    StripOneHyphen(s, t);
    StripOneHyphen(u, v);
  }
}
