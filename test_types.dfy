/** `clean_test_type` of clean_csv.py: an ordered cascade of rules that
    turns one `test_type` cell of the catalog into a list of category
    letters. */
module CsvCleaning {
  import opened Wrappers
  import opened Text
  import opened Json

  /** A cell as `pd.read_csv` gives it: missing, or a value whose `str()`
      is `text`. */
  datatype CsvCell = Missing | Present(text: string)

  /** `[item.strip() for item in parts]`. */
  function StripEach(parts: seq<string>): (r: seq<string>)
    ensures |r| == |parts|
    ensures forall i | 0 <= i < |parts| :: r[i] == Strip(parts[i])
  {
    seq(|parts|, i requires 0 <= i < |parts| => Strip(parts[i]))
  }

  predicate Bracketed(s: string) {
    |s| >= 1 && s[0] == '[' && s[|s| - 1] == ']'
  }

  /** The JSON list a bracketed text decodes to, if it decodes to a list. */
  function DecodedList(s: string, loads: Decoder): Option<seq<string>> {
    if Bracketed(s) then
      match loads(s)
      case Some(JList(items)) => Some(items)
      case _ => None
    else None
  }

  /** `clean_test_type(value)`: a JSON list is returned as decoded, a text
      with commas is split at every comma and each piece stripped, a single
      letter is returned alone, and anything else becomes `['K']`. */
  function CleanTestType(cell: CsvCell, loads: Decoder): (r: seq<string>)
    ensures r == [] ==> cell.Present? && DecodedList(Strip(cell.text), loads) == Some([])
  {
    match cell
    case Missing => ["K"]
    case Present(value) => Classify(Strip(value), loads)
  }

  /** The cascade on the stripped text `s`. */
  function Classify(s: string, loads: Decoder): (r: seq<string>)
    ensures r == [] ==> DecodedList(s, loads) == Some([])
  {
    match DecodedList(s, loads)
    case Some(items) => items
    case None =>
      if ',' in s then StripEach(Split(s, ','))
      else if |s| == 1 && IsAlpha(s[0]) then [s]
      else ["K"]
  }

  /** Only the stripped text matters: surrounding whitespace never changes
      the outcome. */
  lemma CleanUsesStrippedText(value: string, loads: Decoder)
    ensures CleanTestType(Present(value), loads) == CleanTestType(Present(Strip(value)), loads)
  {
    StripIdempotent(value);
  }

  /** A text with commas that is not a JSON list gives one stripped piece
      per comma-separated part: one more piece than there are commas, no
      piece holding a comma or surrounding whitespace. */
  lemma CommaSplit(value: string, loads: Decoder)
    requires var s := Strip(value); ',' in s && DecodedList(s, loads).None?
    ensures var s := Strip(value);
            var r := CleanTestType(Present(value), loads);
            && |r| == multiset(s)[','] + 1
            && (forall p | p in r :: ',' !in p && Strip(p) == p)
  {
    var s := Strip(value);
    var r := CleanTestType(Present(value), loads);
    var parts := Split(s, ',');
    SplitCount(s, ',');
    forall p | p in r ensures ',' !in p && Strip(p) == p {
      var i :| 0 <= i < |r| && r[i] == p;
      StripIdempotent(parts[i]);
      assert p == Strip(parts[i]);
      StripWithin(parts[i], ',');
    }
  }

  /** Stripping keeps only characters of its input. */
  lemma StripWithin(s: string, c: char)
    requires c !in s
    ensures c !in Strip(s)
  {
    var r := Strip(s);
    var i, j := StripIsSlice(s);
    forall k | 0 <= k < |r| ensures r[k] != c {
      assert r[k] == s[i + k];
    }
  }

  /** Every non-list outcome is a non-empty list of stripped strings, and
      a text without commas that is not a JSON list gives exactly one
      item: itself when it is one letter, otherwise `K`. */
  lemma NonListOutcomes(value: string, loads: Decoder)
    requires DecodedList(Strip(value), loads).None?
    ensures var s := Strip(value);
            var r := CleanTestType(Present(value), loads);
            && r != []
            && (',' !in s ==> r == (if |s| == 1 && IsAlpha(s[0]) then [s] else ["K"]))
  {
  }

  /** A bracketed text that decodes to a JSON list gives that list as it
      stands, `[]` included. */
  lemma JsonListKept(value: string, loads: Decoder, items: seq<string>)
    requires Bracketed(Strip(value)) && loads(Strip(value)) == Some(JList(items))
    ensures CleanTestType(Present(value), loads) == items
  {
  }

  /** A missing cell is `['K']`. */
  lemma MissingIsK(loads: Decoder)
    ensures CleanTestType(Missing, loads) == ["K"]
  {
  }

  /** A bracketed pair that is not a JSON list, such as `[K, P]`, is split
      at its comma with the brackets staying on the pieces: `['[K', 'P]']`. */
  lemma BracketsStayOnPieces(x: string, y: string, loads: Decoder)
    requires ',' !in x && ',' !in y
    requires loads("[" + x + "," + y + "]").None?
    ensures CleanTestType(Present("[" + x + "," + y + "]"), loads) == StripEach(["[" + x, y + "]"])
  {
    var s := "[" + x + "," + y + "]";
    ClassifyBracketPair(x, y, loads);
    assert s[0] == '[' && s[|s| - 1] == ']';
    StripUnchanged(s);
  }

  lemma ClassifyBracketPair(x: string, y: string, loads: Decoder)
    requires ',' !in x && ',' !in y
    requires loads("[" + x + "," + y + "]").None?
    ensures Classify("[" + x + "," + y + "]", loads) == StripEach(["[" + x, y + "]"])
  {
    var s := "[" + x + "," + y + "]";
    assert s == ("[" + x) + [','] + (y + "]");
    SplitAtOne("[" + x, y + "]", ',');
    assert ',' in s by { assert s[|x| + 1] == ','; }
    CommaPieces(s, loads);
  }

  lemma CommaPieces(s: string, loads: Decoder)
    requires DecodedList(s, loads).None? && ',' in s
    ensures Classify(s, loads) == StripEach(Split(s, ','))
  {
  }

  /** Splitting at the only separator gives the two sides. */
  lemma SplitAtOne(a: string, b: string, sep: char)
    requires sep !in a && sep !in b
    ensures Split(a + [sep] + b, sep) == [a, b]
  {
    var s := a + [sep] + b;
    assert s[|a|] == sep;
    assert s[..|a|] == a && s[|a| + 1..] == b;
    assert IndexOf(s, sep) == |a|;
  }

  /** One letter, once stripped, is kept: `" P "` gives `['P']`. */
  lemma SingleLetter(value: string, loads: Decoder)
    requires |Strip(value)| == 1 && IsAlpha(Strip(value)[0])
    ensures CleanTestType(Present(value), loads) == [Strip(value)]
  {
    var s := Strip(value);
    assert ',' !in s && !Bracketed(s);
  }

  /** A word, the empty text and digits all fall back to `['K']`. */
  lemma DefaultIsK(loads: Decoder)
    ensures CleanTestType(Present("Knowledge"), loads) == ["K"]
    ensures CleanTestType(Present(""), loads) == ["K"]
    ensures CleanTestType(Present("12"), loads) == ["K"]
  {
    OtherTextIsK("Knowledge", loads);
    OtherTextIsK("", loads);
    OtherTextIsK("12", loads);
  }

  lemma OtherTextIsK(s: string, loads: Decoder)
    requires s == [] || (!IsSpace(s[0]) && !IsSpace(s[|s| - 1]))
    requires !Bracketed(s) && ',' !in s && |s| != 1
    ensures CleanTestType(Present(s), loads) == ["K"]
  {
    assert DecodedList(s, loads) == None;
    assert Classify(s, loads) == ["K"];
    StripUnchanged(s);
  }
}
