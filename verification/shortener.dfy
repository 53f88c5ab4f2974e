/**
 * Short-code generation and the two input validators of the link registry:
 * `generateCode`, `isValidUrl` and `isValidCode`.
 */
module Shortener {
  import opened Wrappers
  import opened Text

  /**
   * The 62 characters a generated code is drawn from, in this order:
   * `A`..`Z`, then `a`..`z`, then `0`..`9`.
   */
  const Alphabet: string := CharRange('A', 26) + CharRange('a', 26) + CharRange('0', 10)

  /** The `n` consecutive ASCII characters starting at `first`. */
  function CharRange(first: char, n: nat): (r: string)
    requires first as int + n <= 128
    ensures |r| == n
    ensures forall i :: 0 <= i < n ==> r[i] as int == first as int + i
  {
    seq(n, i requires 0 <= i < n => (first as int + i) as char)
  }

  /** The length `generateCode()` uses when called without an argument. */
  const DefaultCodeLength: nat := 6

  /** Inclusive bounds on the length of a valid code. */
  const MinCodeLength: nat := 3
  const MaxCodeLength: nat := 10

  /** A value `Math.random()` can return. */
  type Unit = r: real | 0.0 <= r < 1.0

  predicate IsAlphanumeric(c: char)
  {
    'A' <= c <= 'Z' || 'a' <= c <= 'z' || '0' <= c <= '9'
  }

  /** The character class `[A-Za-z0-9_-]` of a valid code. */
  predicate IsCodeChar(c: char)
  {
    IsAlphanumeric(c) || c == '_' || c == '-'
  }

  lemma AlphabetIsAlphanumeric()
    ensures |Alphabet| == 62
    ensures forall i :: 0 <= i < |Alphabet| ==> IsAlphanumeric(Alphabet[i])
  {
    var upper, lower, digits := CharRange('A', 26), CharRange('a', 26), CharRange('0', 10);
    forall i | 0 <= i < |Alphabet| ensures IsAlphanumeric(Alphabet[i]) {
      if i < 26 {
        assert Alphabet[i] == upper[i];
      } else if i < 52 {
        assert Alphabet[i] == lower[i - 26];
      } else {
        assert Alphabet[i] == digits[i - 52];
      }
    }
  }

  /** `Math.floor(u * chars.length)`: the alphabet position one random draw selects. */
  function AlphabetIndex(u: Unit): (i: nat)
    ensures i < |Alphabet|
  {
    (u * |Alphabet| as real).Floor
  }

  /**
   * `generateCode(length)`: position `i` holds the character picked by the
   * `i`-th random draw `rand(i)`.
   */
  function GenerateCode(length: nat, rand: nat -> Unit): (code: string)
    ensures |code| == length
    ensures forall i :: 0 <= i < length ==> code[i] == Alphabet[AlphabetIndex(rand(i))]
  {
    seq(length, i requires 0 <= i < length => Alphabet[AlphabetIndex(rand(i))])
  }

  /** Every character of a generated code is alphanumeric, whatever the draws. */
  lemma GeneratedCodeIsAlphanumeric(length: nat, rand: nat -> Unit)
    ensures forall i :: 0 <= i < length ==> IsAlphanumeric(GenerateCode(length, rand)[i])
  {
    AlphabetIsAlphanumeric();
  }

  /** Every alphabet character can come out of a draw: `AlphabetIndex` reaches all 62 positions. */
  lemma AlphabetIndexReachesAll(i: nat)
    requires i < |Alphabet|
    ensures AlphabetIndex((i as real / 62.0) as Unit) == i
  {
  }

  /** Every character of `s` is in `[A-Za-z0-9_-]`. */
  predicate AllCodeChars(s: string)
  {
    s == [] || (IsCodeChar(s[0]) && AllCodeChars(s[1..]))
  }

  /** `AllCodeChars` says of each position what the regex's character class says. */
  lemma {:induction false} AllCodeCharsAt(s: string)
    ensures AllCodeChars(s) <==> forall i :: 0 <= i < |s| ==> IsCodeChar(s[i])
  {
    if s != [] {
      AllCodeCharsAt(s[1..]);
      assert forall i :: 1 <= i < |s| ==> s[i] == s[1..][i - 1];
    }
  }

  /** `isValidCode(code)`: `(code || "").trim()` matches `^[A-Za-z0-9_-]{3,10}$`. */
  predicate IsValidCode(code: Option<string>)
  {
    var c := Trim(if code.Some? then code.value else "");
    MinCodeLength <= |c| <= MaxCodeLength && AllCodeChars(c)
  }

  /** A code is valid exactly when its trim has 3 to 10 characters, each in `[A-Za-z0-9_-]`. */
  lemma IsValidCodeIff(s: string)
    ensures IsValidCode(Some(s)) <==>
      3 <= |Trim(s)| <= 10 && forall i :: 0 <= i < |Trim(s)| ==> IsCodeChar(Trim(s)[i])
  {
    AllCodeCharsAt(Trim(s));
  }

  /** Surrounding whitespace never changes the verdict. */
  lemma IsValidCodeIgnoresWhitespace(s: string)
    ensures IsValidCode(Some(s)) == IsValidCode(Some(Trim(s)))
  {
    TrimIdempotent(s);
  }

  /** A missing code, the empty code and a blank code are all invalid. */
  lemma BlankCodeInvalid(s: string)
    requires Trim(s) == ""
    ensures !IsValidCode(None) && !IsValidCode(Some(s))
  {
    assert Trim("") == "";
  }

  /**
   * For a string made only of code characters the length alone decides:
   * 2 characters fail, 3 and 10 pass, 11 fail.
   */
  lemma CodeLengthBoundaries(s: string)
    requires forall i :: 0 <= i < |s| ==> IsCodeChar(s[i])
    ensures IsValidCode(Some(s)) <==> 3 <= |s| <= 10
  {
    TrimOfTrimmed(s);
    AllCodeCharsAt(s);
  }

  /** A code generated with the default length always passes `isValidCode`. */
  lemma {:induction false} DefaultCodeIsValid(rand: nat -> Unit)
    ensures IsValidCode(Some(GenerateCode(DefaultCodeLength, rand)))
  {
    var code := GenerateCode(DefaultCodeLength, rand);
    GeneratedCodeIsAlphanumeric(DefaultCodeLength, rand);
    CodeLengthBoundaries(code);
  }

  /**
   * `isValidUrl(url)`: `parse` stands for the WHATWG URL parser behind
   * `new URL(url)`; it yields the URL's `protocol` (the scheme and a colon,
   * lower-cased by the parser) or `None` where the constructor throws.
   */
  predicate IsValidUrl(url: string, parse: string -> Option<string>)
  {
    match parse(url)
    case None => false
    case Some(protocol) => protocol == "http:" || protocol == "https:"
  }

  /** A URL is valid exactly when it parses and its protocol is `http:` or `https:`. */
  lemma IsValidUrlIff(url: string, parse: string -> Option<string>)
    ensures IsValidUrl(url, parse) <==> parse(url).Some? && parse(url).value in {"http:", "https:"}
    ensures parse(url) == Some("ftp:") ==> !IsValidUrl(url, parse)
  {
  }
}
