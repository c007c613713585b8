/** The random code generator (GenerateCode). Each call of rand.Intn(62) is
    modelled by one entry of a pre-drawn sequence of indices into the alphabet. */
module CodeGen {
  import opened Ascii

  // The alphabet, in the source's order; the three parts concatenate to the
  // single 62-character literal of the source.
  const LowerLetters: string := "abcdefghijklmnopqrstuvwxyz"
  const UpperLetters: string := "ABCDEFGHIJKLMNOPQRSTUVWXYZ"
  const DigitChars: string := "1234567890"
  const Charset: string := LowerLetters + UpperLetters + DigitChars

  /** The issuer asks for codes of this length. */
  const CodeLength: nat := 6

  /** What rand.Intn(len(charset)) may return. */
  predicate ValidDraws(draws: seq<int>) {
    forall i :: 0 <= i < |draws| ==> 0 <= draws[i] < |Charset|
  }

  /** Position i of the alphabet, computed from the character codes. */
  function AlphabetAt(i: int): char
    requires 0 <= i < 62
  {
    if i < 26 then ('a' as int + i) as char
    else if i < 52 then ('A' as int + i - 26) as char
    else if i < 61 then ('1' as int + i - 52) as char
    else '0'
  }

  lemma CharsetLayout()
    ensures |Charset| == 62
    ensures forall i :: 0 <= i < 62 ==> Charset[i] == AlphabetAt(i)
  {
    forall i | 0 <= i < 62 ensures Charset[i] == AlphabetAt(i) {
      if i < 26 {
        assert Charset[i] == LowerLetters[i];
      } else if i < 52 {
        assert Charset[i] == UpperLetters[i - 26];
      } else {
        assert Charset[i] == DigitChars[i - 52];
      }
    }
  }

  /** The alphabet holds exactly the ASCII letters and digits. */
  lemma CharsetIsAlnum()
    ensures |Charset| == 62
    ensures forall c :: c in Charset <==> IsAlnum(c)
  {
    CharsetLayout();
    forall c | IsAlnum(c) ensures c in Charset {
      var i := if IsLower(c) then c as int - 'a' as int
               else if IsUpper(c) then c as int - 'A' as int + 26
               else if c == '0' then 61
               else c as int - '1' as int + 52;
      assert Charset[i] == c;
    }
  }

  /** No character occurs twice in the alphabet, so each draw picks a
      different character. */
  lemma CharsetDistinct()
    ensures forall i, j :: 0 <= i < j < |Charset| ==> Charset[i] != Charset[j]
  {
    CharsetLayout();
  }

  /** The code that a sequence of draws selects. */
  function CodeOf(draws: seq<int>): (code: string)
    requires ValidDraws(draws)
    ensures |code| == |draws|
    ensures forall i :: 0 <= i < |code| ==> code[i] in Charset && IsAlnum(code[i])
  {
    CharsetIsAlnum();
    seq(|draws|, i requires 0 <= i < |draws| => Charset[draws[i]])
  }

  /** Different draws give different codes: the draws-to-code map is a
      bijection onto the codes of that length over the alphabet. */
  lemma CodeOfInjective(d1: seq<int>, d2: seq<int>)
    requires ValidDraws(d1) && ValidDraws(d2)
    requires CodeOf(d1) == CodeOf(d2)
    ensures d1 == d2
  {
    CharsetDistinct();
    assert |d1| == |d2|;
    forall i | 0 <= i < |d1| ensures d1[i] == d2[i] {
      assert Charset[d1[i]] == CodeOf(d1)[i] == CodeOf(d2)[i] == Charset[d2[i]];
    }
  }

  /** Every code of the alphabet is produced by some draws. */
  lemma CodeOfSurjective(code: string)
    requires forall i :: 0 <= i < |code| ==> IsAlnum(code[i])
    ensures exists draws :: ValidDraws(draws) && CodeOf(draws) == code
  {
    CharsetIsAlnum();
    var draws := seq(|code|, i requires 0 <= i < |code| => IndexOf(code[i]));
    assert CodeOf(draws) == code;
  }

  /** The lowercase letters are exactly the first 26 characters of the
      alphabet. */
  lemma LowerAt(i: int)
    requires 0 <= i < |Charset|
    ensures IsLower(Charset[i]) <==> i < 26
  {
    CharsetLayout();
  }

  /** A code holds no lowercase letter exactly when every draw picked past
      the 26 lowercase letters. */
  lemma CodeNoLower(draws: seq<int>)
    requires ValidDraws(draws)
    ensures NoLower(CodeOf(draws)) <==> forall i :: 0 <= i < |draws| ==> draws[i] >= 26
  {
    var code := CodeOf(draws);
    forall i | 0 <= i < |draws| ensures IsLower(code[i]) <==> draws[i] < 26 {
      LowerAt(draws[i]);
    }
  }

  /** The position of an alphabet character. */
  function IndexOf(c: char): (i: int)
    requires c in Charset
    ensures 0 <= i < |Charset| && Charset[i] == c
  {
    CharsetIsAlnum();
    CharsetLayout();
    if IsLower(c) then c as int - 'a' as int
    else if IsUpper(c) then c as int - 'A' as int + 26
    else if c == '0' then 61
    else c as int - '1' as int + 52
  }

  /** GenerateCode: fills a buffer of the requested length with alphabet
      characters chosen by the draws. */
  method GenerateCode(length: nat, draws: seq<int>) returns (code: string)
    requires |draws| == length && ValidDraws(draws)
    ensures code == CodeOf(draws)
    ensures |code| == length
    ensures forall i :: 0 <= i < |code| ==> IsAlnum(code[i])
  {
    CharsetIsAlnum();
    var chars := new char[length];
    for i := 0 to length
      invariant forall j :: 0 <= j < i ==> chars[j] == Charset[draws[j]]
    {
      chars[i] := Charset[draws[i]];
    }
    code := chars[..];
  }
}
