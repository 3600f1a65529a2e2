/** Field extraction of the host program's line parsers: each line of the readings file
    holds space-separated metadata fields followed by the temperature, and the parser keeps
    every character that comes after the fifth single space. */
module LineParser {

  /** The one character the parser counts. */
  const Delimiter: char := ' '

  /** Number of delimiters the parser skips before it starts keeping characters. */
  const SkippedDelimiters: nat := 5

  /** Number of delimiter characters in `s`. */
  function CountDelimiters(s: string): (n: nat)
    ensures n <= |s|
  {
    if s == [] then 0
    else (if s[0] == Delimiter then 1 else 0) + CountDelimiters(s[1..])
  }

  /** What remains of `s` once `k` delimiters have been passed: the reference definition
      of the parser's result, consuming one character at a time. */
  function AfterDelimiters(s: string, k: nat): (r: string)
    ensures |r| <= |s|
  {
    if k == 0 then s
    else if s == [] then []
    else AfterDelimiters(s[1..], if s[0] == Delimiter then k - 1 else k)
  }

  /** The result is a suffix of the line: nothing is inserted, reordered or dropped from its tail. */
  lemma {:induction false} AfterDelimitersIsSuffix(s: string, k: nat)
    ensures AfterDelimiters(s, k) == s[|s| - |AfterDelimiters(s, k)|..]
  {
    if k > 0 && s != [] {
      AfterDelimitersIsSuffix(s[1..], if s[0] == Delimiter then k - 1 else k);
    }
  }

  /** A line with fewer than `k` delimiters yields nothing. */
  lemma {:induction false} FewDelimitersYieldEmpty(s: string, k: nat)
    requires CountDelimiters(s) < k
    ensures AfterDelimiters(s, k) == []
  {
    if s != [] {
      FewDelimitersYieldEmpty(s[1..], if s[0] == Delimiter then k - 1 else k);
    }
  }

  /** When the delimiter at index `j` is the `k`-th one, the result is exactly what follows it. */
  lemma {:induction false} AfterKthDelimiter(s: string, k: nat, j: nat)
    requires 0 < k && j < |s| && s[j] == Delimiter && CountDelimiters(s[..j]) == k - 1
    ensures AfterDelimiters(s, k) == s[j + 1..]
  {
    if j > 0 {
      assert s[..j] == [s[0]] + s[1..][..j - 1];
      var k' := if s[0] == Delimiter then k - 1 else k;
      AfterKthDelimiter(s[1..], k', j - 1);
      assert s[1..][j..] == s[j + 1..];
    }
  }

  /** A line with at least `k` delimiters has a `k`-th one. */
  lemma {:induction false} KthDelimiterExists(s: string, k: nat) returns (j: nat)
    requires 0 < k <= CountDelimiters(s)
    ensures j < |s| && s[j] == Delimiter && CountDelimiters(s[..j]) == k - 1
  {
    assert s != [];
    if s[0] == Delimiter && k == 1 {
      j := 0;
    } else {
      var k' := if s[0] == Delimiter then k - 1 else k;
      var j' := KthDelimiterExists(s[1..], k');
      j := j' + 1;
      assert s[..j] == [s[0]] + s[1..][..j'];
      assert s[..j][1..] == s[1..][..j'];
    }
  }

  /** The character loop shared by the float and the integer line parser: it counts delimiters
      until five have been seen and from then on appends every character, spaces included.
      The numeric conversion of the returned text is not part of this model. */
  method ExtractField(line: string) returns (numberToString: string)
    ensures numberToString == AfterDelimiters(line, SkippedDelimiters)
  {
    var delimiterCount: nat := 0;
    numberToString := "";
    for i := 0 to |line|
      invariant delimiterCount <= SkippedDelimiters
      invariant delimiterCount < SkippedDelimiters ==> numberToString == []
      invariant AfterDelimiters(line, SkippedDelimiters)
                == numberToString + AfterDelimiters(line[i..], SkippedDelimiters - delimiterCount)
    {
      assert line[i..][0] == line[i] && line[i..][1..] == line[i + 1..];
      if delimiterCount < SkippedDelimiters {
        if line[i] == Delimiter {
          delimiterCount := delimiterCount + 1;
        }
      } else {
        numberToString := numberToString + [line[i]];
      }
    }
    assert line[|line|..] == [];
  }
}
