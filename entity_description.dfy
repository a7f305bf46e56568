/**
 * `EntityDescription`: the words a player uses for an entity. The last word
 * is the main word, the words before it are attributes.
 */
module Description {

  /** The description owns its word list; the value copies the caller's list. */
  datatype EntityDescription = EntityDescription(words: seq<string>)

  /** `getMainWord`: the last word; there is none for an empty description. */
  function MainWord(d: EntityDescription): (r: string)
    requires |d.words| > 0
    ensures r in d.words
  {
    d.words[|d.words| - 1]
  }

  /** `getAttributes`: all words but the last, in order. */
  function Attributes(d: EntityDescription): (r: seq<string>)
    requires |d.words| > 0
    ensures |r| == |d.words| - 1
    ensures forall i | 0 <= i < |r| :: r[i] == d.words[i]
  {
    d.words[..|d.words| - 1]
  }

  /** Attributes followed by the main word give back the description. */
  lemma AttributesThenMainWord(d: EntityDescription)
    requires |d.words| > 0
    ensures Attributes(d) + [MainWord(d)] == d.words
  {
  }

  /** The total number of characters of `words`. */
  function Letters(words: seq<string>): nat {
    if |words| == 0 then 0 else |words[0]| + Letters(words[1..])
  }

  /** `String.join(" ", words)`: the words, one space between each two. */
  function Join(words: seq<string>): (r: string)
    ensures |words| == 0 ==> r == ""
    ensures |words| > 0 ==> |r| == Letters(words) + |words| - 1 && words[0] <= r
  {
    if |words| == 0 then ""
    else if |words| == 1 then words[0]
    else words[0] + " " + Join(words[1..])
  }

  /** `toString`: the words joined with single spaces. */
  function ToString(d: EntityDescription): (r: string)
    ensures r == "" <==> |d.words| == 0 || d.words == [""]
  {
    Join(d.words)
  }

  /** The text of a description gives back its words, when it has some and none holds a space. */
  lemma ToStringSplits(d: EntityDescription)
    requires |d.words| > 0 && forall w | w in d.words :: ' ' !in w
    ensures Split(ToString(d)) == d.words
  {
    SplitJoin(d.words);
  }

  /** A string cut at every space: the inverse of joining words that contain none. */
  function Split(s: string): (r: seq<string>)
    ensures |r| >= 1
  {
    if |s| == 0 then [""]
    else
      var rest := Split(s[1..]);
      if s[0] == ' ' then [""] + rest else [[s[0]] + rest[0]] + rest[1..]
  }

  /** A word without spaces in front only lengthens the first piece. */
  lemma {:induction false} SplitWordPrefix(w: string, t: string)
    requires ' ' !in w
    ensures Split(w + t) == [w + Split(t)[0]] + Split(t)[1..]
  {
    if |w| > 0 {
      assert (w + t)[1..] == w[1..] + t;
      assert ' ' !in w[1..];
      SplitWordPrefix(w[1..], t);
      assert [w[0]] + (w[1..] + Split(t)[0]) == w + Split(t)[0];
    } else {
      assert w + t == t && w + Split(t)[0] == Split(t)[0];
      assert Split(t) == [Split(t)[0]] + Split(t)[1..];
    }
  }

  /** A leading space ends an empty first piece. */
  lemma SplitAfterSpace(t: string)
    ensures Split(" " + t) == [""] + Split(t)
  {
    assert (" " + t)[1..] == t;
  }

  /**
   * Splitting a description's text at spaces gives back its words whenever
   * no word contains a space.
   */
  lemma {:induction false} SplitJoin(words: seq<string>)
    requires |words| > 0 && forall w | w in words :: ' ' !in w
    ensures Split(Join(words)) == words
  {
    if |words| == 1 {
      SplitWordPrefix(words[0], "");
      assert words[0] + "" == words[0];
    } else {
      var rest := words[1..];
      assert forall w | w in rest :: w in words;
      SplitJoin(rest);
      var t := " " + Join(rest);
      SplitAfterSpace(Join(rest));
      assert words[0] + " " + Join(rest) == words[0] + t;
      SplitWordPrefix(words[0], t);
      assert words[0] + "" == words[0];
    }
  }
}
