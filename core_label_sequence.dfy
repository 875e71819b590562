/**
 * CoreLabelSequence: an immutable run of token labels (a multi-word
 * expression found in a sentence), with the queries the substitutor asks
 * of it: is it empty, does it hold a given label, its words joined with
 * '_', and the label string "<joined words>-<index of the first label>".
 */
module CoreLabelSequences {

  import opened Optional
  import opened JavaInt
  import opened CoreLabels
  import opened Joiner

  /** The labels are fixed when the value is built; nothing updates them. */
  datatype CoreLabelSequence = CoreLabelSequence(labels: seq<CoreLabel>)

  /** Sentence index that matches a label of any sentence (Integer.MIN_VALUE). */
  const IGNORE_SENTENCE: Int32 := MIN_VALUE

  const EMPTY_SEQUENCE: CoreLabelSequence := CoreLabelSequence([])

  /** IGNORE_SENTENCE is the least Java int. */
  lemma IgnoreSentenceIsMinValue()
    ensures IGNORE_SENTENCE == -2147483648
  {
  }

  /** The varargs constructor: the labels are copied out of the array. */
  method FromArray(a: array<CoreLabel>) returns (s: CoreLabelSequence)
    ensures s.labels == a[..]
  {
    s := CoreLabelSequence(a[..]);
  }

  /** Writing into the array after construction leaves the sequence as it was built. */
  method FromArrayThenOverwrite(a: array<CoreLabel>, i: nat, l: CoreLabel) returns (s: CoreLabelSequence)
    requires i < a.Length
    modifies a
    ensures s.labels == old(a[..])
    ensures a[..] == old(a[..])[i := l]
  {
    s := FromArray(a);
    a[i] := l;
  }

  predicate IsEmpty(s: CoreLabelSequence) {
    |s.labels| == 0
  }

  /** List.indexOf under structural equality: the first position of l, or -1. */
  function IndexOf(labels: seq<CoreLabel>, l: CoreLabel): (r: int)
    ensures -1 <= r < |labels|
    ensures r >= 0 ==> labels[r] == l && forall j :: 0 <= j < r ==> labels[j] != l
    ensures r == -1 <==> l !in labels
  {
    if |labels| == 0 then -1
    else if labels[0] == l then 0
    else
      var k := IndexOf(labels[1..], l);
      if k < 0 then -1 else k + 1
  }

  /** containsLabel(CoreLabel): List.contains, i.e. indexOf(label) >= 0. */
  function ContainsLabel(s: CoreLabelSequence, l: CoreLabel): (r: bool)
    ensures r <==> l in s.labels
  {
    IndexOf(s.labels, l) >= 0
  }

  /** The predicate each label is tested against in containsLabel(int, String, int). */
  predicate Matches(token: CoreLabel, sentIndex: Int32, text: string, index: Int32) {
    (sentIndex == token.sentIndex || sentIndex == IGNORE_SENTENCE)
    && text == token.originalText
    && index == token.index
  }

  /** Stream.anyMatch over the labels, front to back. */
  function AnyMatch(labels: seq<CoreLabel>, sentIndex: Int32, text: string, index: Int32): (r: bool)
    ensures r <==> exists i :: 0 <= i < |labels| && Matches(labels[i], sentIndex, text, index)
  {
    if |labels| == 0 then false
    else Matches(labels[0], sentIndex, text, index) || AnyMatch(labels[1..], sentIndex, text, index)
  }

  /**
   * containsLabel(int, String, int): some label has this text and index and
   * either this sentence index or the query's sentence index is IGNORE_SENTENCE.
   */
  function ContainsLabelAt(s: CoreLabelSequence, sentIndex: Int32, text: string, index: Int32): (r: bool)
    ensures r <==> exists i :: 0 <= i < |s.labels| &&
                     s.labels[i].originalText == text && s.labels[i].index == index &&
                     (s.labels[i].sentIndex == sentIndex || sentIndex == IGNORE_SENTENCE)
  {
    AnyMatch(s.labels, sentIndex, text, index)
  }

  /** The original text of each label, in order. */
  function Texts(labels: seq<CoreLabel>): (r: seq<string>)
    ensures |r| == |labels|
    ensures forall i :: 0 <= i < |labels| ==> r[i] == labels[i].originalText
  {
    if |labels| == 0 then [] else [labels[0].originalText] + Texts(labels[1..])
  }

  /** toText: the original texts joined with "_". */
  function ToText(s: CoreLabelSequence): string {
    Join("_", Texts(s.labels))
  }

  /** toLabelString: the joined text, '-', then the first label's index; empty for no labels. */
  function ToLabelString(s: CoreLabelSequence): (r: Option<string>)
    ensures r.None? <==> IsEmpty(s)
  {
    if |s.labels| != 0 then Some(ToText(s) + "-" + IntToString(s.labels[0].index))
    else None
  }

  // ---------------------------------------------------------------------
  // Emptiness

  /** EMPTY_SEQUENCE holds no labels and so is empty. */
  lemma EmptySequenceIsEmpty()
    ensures IsEmpty(EMPTY_SEQUENCE) && EMPTY_SEQUENCE.labels == []
  {
  }

  /** A sequence is empty exactly when no label is a member of it. */
  lemma IsEmptyIffNoMember(s: CoreLabelSequence)
    ensures IsEmpty(s) <==> forall l :: !ContainsLabel(s, l)
  {
    if !IsEmpty(s) {
      assert ContainsLabel(s, s.labels[0]);
    }
  }

  /** On an empty sequence every query answers false, whatever its arguments. */
  lemma EmptyAnswersNothing(s: CoreLabelSequence, l: CoreLabel, sentIndex: Int32, text: string, index: Int32)
    requires IsEmpty(s)
    ensures !ContainsLabel(s, l)
    ensures !ContainsLabelAt(s, sentIndex, text, index)
    ensures !ContainsLabelAt(s, IGNORE_SENTENCE, text, index)
  {
  }

  // ---------------------------------------------------------------------
  // The two membership queries

  /** A query that matches with a concrete sentence index also matches with the wildcard. */
  lemma WildcardMonotone(s: CoreLabelSequence, sentIndex: Int32, text: string, index: Int32)
    requires ContainsLabelAt(s, sentIndex, text, index)
    ensures ContainsLabelAt(s, IGNORE_SENTENCE, text, index)
  {
  }

  /** With a concrete sentence index, the three-field query is membership of that label. */
  lemma ConcreteQueryIsMembership(s: CoreLabelSequence, sentIndex: Int32, text: string, index: Int32)
    requires sentIndex != IGNORE_SENTENCE
    ensures ContainsLabelAt(s, sentIndex, text, index) <==> ContainsLabel(s, CoreLabel(sentIndex, text, index))
  {
  }

  /** The wildcard query holds exactly when some sentence index makes the label a member. */
  lemma WildcardQueryIsSomeSentence(s: CoreLabelSequence, text: string, index: Int32)
    ensures ContainsLabelAt(s, IGNORE_SENTENCE, text, index) <==>
            exists k: Int32 :: ContainsLabel(s, CoreLabel(k, text, index))
  {
  }

  /** Every member label answers the three-field query built from its own fields. */
  lemma MemberAnswersOwnQuery(s: CoreLabelSequence, l: CoreLabel)
    requires ContainsLabel(s, l)
    ensures ContainsLabelAt(s, l.sentIndex, l.originalText, l.index)
  {
  }

  // ---------------------------------------------------------------------
  // toText

  /** No labels render as the empty string. */
  lemma ToTextEmpty()
    ensures ToText(EMPTY_SEQUENCE) == ""
  {
  }

  /** One label renders as its original text. */
  lemma ToTextSingle(l: CoreLabel)
    ensures ToText(CoreLabelSequence([l])) == l.originalText
  {
  }

  /** Appending a label to a non-empty sequence appends "_" and its text. */
  lemma ToTextSnoc(s: CoreLabelSequence, l: CoreLabel)
    requires !IsEmpty(s)
    ensures ToText(CoreLabelSequence(s.labels + [l])) == ToText(s) + "_" + l.originalText
  {
    assert Texts(s.labels + [l]) == Texts(s.labels) + [l.originalText];
    JoinSnoc("_", Texts(s.labels), l.originalText);
  }

  /** toText does not tell the empty sequence from one label whose text is empty. */
  lemma ToTextEmptyTextCollides(sentIndex: Int32, index: Int32)
    ensures ToText(EMPTY_SEQUENCE) == ToText(CoreLabelSequence([CoreLabel(sentIndex, "", index)]))
    ensures EMPTY_SEQUENCE != CoreLabelSequence([CoreLabel(sentIndex, "", index)])
  {
    ToTextSingle(CoreLabel(sentIndex, "", index));
  }

  /** The rendered text has the texts' characters plus one '_' between neighbours. */
  lemma ToTextLength(s: CoreLabelSequence)
    requires !IsEmpty(s)
    ensures |ToText(s)| == TotalLength(Texts(s.labels)) + |s.labels| - 1
  {
    JoinLength("_", Texts(s.labels));
  }

  /** When no text holds '_', splitting the rendered text at '_' gives back the texts. */
  lemma ToTextSplit(s: CoreLabelSequence)
    requires !IsEmpty(s)
    requires forall i :: 0 <= i < |s.labels| ==> '_' !in s.labels[i].originalText
    ensures Split('_', ToText(s)) == Texts(s.labels)
  {
    SplitJoin('_', Texts(s.labels));
  }

  // ---------------------------------------------------------------------
  // toLabelString

  /** A non-empty sequence's label string is its text, '-', and its first index in decimal. */
  lemma ToLabelStringShape(s: CoreLabelSequence)
    requires !IsEmpty(s)
    ensures ToLabelString(s) == Some(ToText(s) + "-" + IntToString(s.labels[0].index))
  {
  }

  /** The label string depends only on the texts and on the first label's index. */
  lemma ToLabelStringDependsOnTextsAndFirstIndex(s: CoreLabelSequence, t: CoreLabelSequence)
    requires Texts(s.labels) == Texts(t.labels)
    requires !IsEmpty(s) && !IsEmpty(t) ==> s.labels[0].index == t.labels[0].index
    ensures ToLabelString(s) == ToLabelString(t)
  {
  }

  /** Reads a label string back into its text and its (non-negative) index. */
  function ParseLabelString(ls: string): (r: Option<(string, int)>)
    ensures r.Some? ==> r.value.1 >= 0 && |r.value.0| < |ls|
  {
    var k := LastIndexOf('-', ls);
    if k < 0 then None
    else
      var digits := ls[k + 1..];
      if |digits| >= 1 && AllDigits(digits) then Some((ls[..k], ParseNat(digits) as int))
      else None
  }

  /** With a non-negative first index, the label string can be read back into text and index. */
  lemma LabelStringRoundTrip(s: CoreLabelSequence)
    requires !IsEmpty(s) && s.labels[0].index >= 0
    ensures ParseLabelString(ToLabelString(s).value) == Some((ToText(s), s.labels[0].index as int))
  {
    var text, n := ToText(s), s.labels[0].index;
    var digits := IntToString(n);
    var ls := ToLabelString(s).value;
    assert ls == text + "-" + digits;
    assert '-' !in digits by {
      forall i | 0 <= i < |digits| ensures digits[i] != '-' {
        assert IsDigit(digits[i]);
      }
    }
    var k := LastIndexOf('-', ls);
    assert ls[|text|] == '-';
    assert ls[|text| + 1..] == digits;
    assert k == |text|;
    assert ls[..k] == text;
    ParseNatToString(n);
  }

  /**
   * With a negative first index the label string is ambiguous: the same text
   * also belongs to a label whose text ends in '-' and whose index is positive.
   */
  lemma NegativeIndexLabelStringIsAmbiguous(sentIndex: Int32, text: string, n: Int32)
    requires 0 < n
    ensures ToLabelString(CoreLabelSequence([CoreLabel(sentIndex, text, -n)])) ==
            ToLabelString(CoreLabelSequence([CoreLabel(sentIndex, text + "-", n)]))
  {
    var neg := CoreLabelSequence([CoreLabel(sentIndex, text, -n)]);
    var pos := CoreLabelSequence([CoreLabel(sentIndex, text + "-", n)]);
    ToTextSingle(neg.labels[0]);
    ToTextSingle(pos.labels[0]);
    assert IntToString(-n) == "-" + IntToString(n);
    assert ToLabelString(neg).value == text + "-" + ("-" + IntToString(n));
    assert ToLabelString(pos).value == (text + "-") + "-" + IntToString(n);
    assert text + "-" + ("-" + IntToString(n)) == (text + "-") + "-" + IntToString(n);
    assert ToLabelString(neg) == ToLabelString(pos);
  }
}
