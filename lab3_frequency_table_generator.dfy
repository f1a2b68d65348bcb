/** Character counting for the Huffman tables (lab3/frequency_table_generator.py). */
module FrequencyTables {
  import opened Common

  /** The key a character is counted under: its upper-case form, as a one-character string. */
  function KeyOf(c: char): string {
    [Upper(c)]
  }

  /** The number of characters of text counted under the key k. */
  function Count(text: string, k: string): (n: nat)
    ensures n <= |text|
    decreases |text|
  {
    if text == [] then 0
    else Count(text[..|text| - 1], k) + (if KeyOf(text[|text| - 1]) == k then 1 else 0)
  }

  /** The table `generate_frequency_table` returns, built character by character as its
      `defaultdict(int)` loop does. */
  function Freq(text: string): (m: map<string, int>)
    ensures text == [] ==> m == map[]
    decreases |text|
  {
    if text == [] then map[]
    else
      var m := Freq(text[..|text| - 1]);
      var k := KeyOf(text[|text| - 1]);
      m[k := if k in m then m[k] + 1 else 1]
  }

  /** `generate_frequency_table(text)`. */
  method GenerateFrequencyTable(text: string) returns (frequencies: map<string, int>)
    ensures frequencies == Freq(text)
  {
    frequencies := map[];
    var i := 0;
    while i < |text|
      invariant 0 <= i <= |text|
      invariant frequencies == Freq(text[..i])
    {
      var key := KeyOf(text[i]);
      assert text[..i + 1][..i] == text[..i];
      if key in frequencies {
        frequencies := frequencies[key := frequencies[key] + 1];
      } else {
        frequencies := frequencies[key := 1];
      }
      i := i + 1;
    }
    assert text[..|text|] == text;
  }

  /** The keys are exactly the keys of the characters that occur, and each maps to the number
      of characters counted under it, so every count is at least 1. */
  lemma {:induction false} FreqCounts(text: string, k: string)
    ensures k in Freq(text) <==> Count(text, k) > 0
    ensures k in Freq(text) ==> Freq(text)[k] == Count(text, k)
    decreases |text|
  {
    if text != [] {
      FreqCounts(text[..|text| - 1], k);
    }
  }

  /** A key has a positive count exactly when some character of text is counted under it. */
  lemma {:induction false} CountPositive(text: string, k: string)
    ensures Count(text, k) > 0 <==> exists i :: 0 <= i < |text| && KeyOf(text[i]) == k
    decreases |text|
  {
    if text != [] {
      var init := text[..|text| - 1];
      CountPositive(init, k);
      if exists i :: 0 <= i < |init| && KeyOf(init[i]) == k {
        var i :| 0 <= i < |init| && KeyOf(init[i]) == k;
        assert KeyOf(text[i]) == k;
      }
      if exists i :: 0 <= i < |text| && KeyOf(text[i]) == k {
        var i :| 0 <= i < |text| && KeyOf(text[i]) == k;
        if i < |init| {
          assert KeyOf(init[i]) == k;
        }
      }
    }
  }

  /** Every character is counted once: the counts add up to the length of the text. */
  lemma {:induction false} FreqWeight(text: string)
    ensures TableWeight(Freq(text)) == |text|
    decreases |text|
  {
    if text != [] {
      var init := text[..|text| - 1];
      var m := Freq(init);
      var k := KeyOf(text[|text| - 1]);
      FreqWeight(init);
      TableWeightUpdate(m, k, if k in m then m[k] + 1 else 1);
    }
  }

  /** Letters are counted under their upper-case form, whatever their case, and characters
      that are not letters (here a space) are counted as they are. */
  lemma CaseFolded()
    ensures Freq("a A") == map["A" := 2, " " := 1]
  {
    assert "a A"[..2] == "a ";
    assert "a "[..1] == "a";
    assert "a"[..0] == "";
    assert Freq("a") == map["A" := 1];
    assert Freq("a ") == map["A" := 1, " " := 1];
  }
}
