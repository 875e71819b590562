# CoreLabelSequence, modelled in Dafny

Sigma's semantic-rewriting substitutor groups the tokens of a parsed sentence
into multi-word units. A `CoreLabelSequence` is one such unit: an immutable
list of Stanford CoreNLP token labels. Each label carries a sentence index, the
word as written (`originalText`) and the token's position (`index`). The class
answers four questions:

- is the unit empty?
- does it contain a given label?
- does it contain a label with this text and index, in a given sentence or
  (with the `IGNORE_SENTENCE` wildcard) in any sentence?
- how is it rendered? `toText` joins the words with `_`. `toLabelString`
  returns the joined words, `-`, and the first token's index (for example
  `New_York-3`), or nothing for an empty unit.

The project has five modules:

- `Optional` is `java.util.Optional`, written as `Option`.
- `JavaInt` is Java's 32-bit `int` (the `Int32` subset type) and its decimal
  rendering `IntToString`, which is what `"-" + index` produces. `ParseInt`
  reads the rendering back.
- `Joiner` is Guava's `Joiner.on(sep).join(...)`, written as `Join`. `Split`
  is its inverse, and round-trip lemmas go both ways.
- `CoreLabels` holds the three fields of a CoreNLP label that the class reads.
- `CoreLabelSequences` is the class itself, written as a datatype with
  functions and lemmas. The list of labels is immutable once built, so the
  sequence is a value.

The list constructor (lines 38-41) is the datatype constructor
`CoreLabelSequence(labels)`. `getLabels` (lines 53-56) is the field `labels`.
The varargs constructor and `from` (lines 43-51) copy an array; that copy is
`FromArray`. `IGNORE_SENTENCE` is `Integer.MIN_VALUE`, -2147483648.
These members do not exist in the source: `Joiner.Split`, `Joiner.SplitFree`,
`Joiner.SplitAfterPiece`, `Joiner.TotalLength`, `Joiner.NoneContains`,
`Joiner.LastIndexOf`, `JavaInt.ParseNat`, `JavaInt.ParseInt` and
`ParseLabelString`. They read rendered text back, or measure it, so that the
round-trip and length lemmas can state that `toText`, `Integer.toString` and
`toLabelString` lose no information. Their rows cite the source line whose
output they read.

## Model

| member | source | states |
|---|---|---|
| `JavaInt.NatToString` | src/java/com/articulate/sigma/semRewrite/substitutor/CoreLabelSequence.java:84 | the decimal rendering of a natural number is non-empty, all digits, has no leading zero, and has one digit exactly when the number is below 10 |
| `JavaInt.IntToString` | src/java/com/articulate/sigma/semRewrite/substitutor/CoreLabelSequence.java:84 | an int renders as digits when non-negative, and as '-' followed by digits without a leading zero when negative |
| `JavaInt.ParseNatToString` | src/java/com/articulate/sigma/semRewrite/substitutor/CoreLabelSequence.java:84 | reading a natural number's digits back gives the number |
| `JavaInt.IntToStringRoundTrip` | src/java/com/articulate/sigma/semRewrite/substitutor/CoreLabelSequence.java:84 | reading back the rendering of any int, MIN_VALUE included, gives that int |
| `JavaInt.IntToStringInjective` | src/java/com/articulate/sigma/semRewrite/substitutor/CoreLabelSequence.java:84 | two ints with the same rendering are equal |
| `Joiner.Join` | src/java/com/articulate/sigma/semRewrite/substitutor/CoreLabelSequence.java:78 | Guava's join; its value is fixed by JoinEmpty, JoinSingle and JoinSnoc, and SplitJoin and JoinSplit show it loses nothing |
| `Joiner.Split` | src/java/com/articulate/sigma/semRewrite/substitutor/CoreLabelSequence.java:78 | splitting gives at least one piece, and exactly one piece when the separator does not occur |
| `Joiner.JoinEmpty` | src/java/com/articulate/sigma/semRewrite/substitutor/CoreLabelSequence.java:78 | joining no parts gives the empty string |
| `Joiner.JoinSingle` | src/java/com/articulate/sigma/semRewrite/substitutor/CoreLabelSequence.java:78 | joining one part gives that part |
| `Joiner.JoinSnoc` | src/java/com/articulate/sigma/semRewrite/substitutor/CoreLabelSequence.java:78 | appending a part to a non-empty list appends the separator and then the part |
| `Joiner.JoinLength` | src/java/com/articulate/sigma/semRewrite/substitutor/CoreLabelSequence.java:78 | the joined length is the parts' total length plus one separator per gap |
| `Joiner.JoinPrepend` | src/java/com/articulate/sigma/semRewrite/substitutor/CoreLabelSequence.java:78 | text put in front of the first part ends up in front of the joined string |
| `Joiner.SplitFree` | src/java/com/articulate/sigma/semRewrite/substitutor/CoreLabelSequence.java:78 | text without the separator splits into itself alone |
| `Joiner.SplitAfterPiece` | src/java/com/articulate/sigma/semRewrite/substitutor/CoreLabelSequence.java:78 | a piece without the separator, followed by the separator, splits off as the first piece |
| `Joiner.SplitJoin` | src/java/com/articulate/sigma/semRewrite/substitutor/CoreLabelSequence.java:78 | splitting a join of one or more separator-free parts gives back exactly those parts |
| `Joiner.JoinSplit` | src/java/com/articulate/sigma/semRewrite/substitutor/CoreLabelSequence.java:78 | joining the pieces of any split rebuilds the original string |
| `CoreLabelSequences.IgnoreSentenceIsMinValue` | src/java/com/articulate/sigma/semRewrite/substitutor/CoreLabelSequence.java:34 | IGNORE_SENTENCE is Integer.MIN_VALUE, -2147483648 |
| `CoreLabelSequences.IsEmpty` | src/java/com/articulate/sigma/semRewrite/substitutor/CoreLabelSequence.java:63-66 | `isEmpty`: no labels; IsEmptyIffNoMember, EmptyAnswersNothing and ToLabelString relate it to the queries |
| `CoreLabelSequences.FromArray` | src/java/com/articulate/sigma/semRewrite/substitutor/CoreLabelSequence.java:43-51 | the new sequence holds exactly the array's labels, in order |
| `CoreLabelSequences.FromArrayThenOverwrite` | src/java/com/articulate/sigma/semRewrite/substitutor/CoreLabelSequence.java:43-46 | writing another label into any slot of the array after construction does not change the sequence; the list is a copy of the array |
| `CoreLabelSequences.EmptySequenceIsEmpty` | src/java/com/articulate/sigma/semRewrite/substitutor/CoreLabelSequence.java:33 | EMPTY_SEQUENCE, built by `from()` with no labels, has no labels and is empty |
| `CoreLabelSequences.IsEmptyIffNoMember` | src/java/com/articulate/sigma/semRewrite/substitutor/CoreLabelSequence.java:58-66 | a sequence is empty exactly when no label is a member of it |
| `CoreLabelSequences.EmptyAnswersNothing` | src/java/com/articulate/sigma/semRewrite/substitutor/CoreLabelSequence.java:58-75 | on an empty sequence both membership queries return false for every argument, the wildcard included |
| `CoreLabelSequences.IndexOf` | src/java/com/articulate/sigma/semRewrite/substitutor/CoreLabelSequence.java:60 | the result is the first position holding the label, or -1 exactly when the label is absent |
| `CoreLabelSequences.ContainsLabel` | src/java/com/articulate/sigma/semRewrite/substitutor/CoreLabelSequence.java:58-61 | `containsLabel(label)` is true exactly when the label occurs among the labels |
| `CoreLabelSequences.Matches` | src/java/com/articulate/sigma/semRewrite/substitutor/CoreLabelSequence.java:71-73 | the test the stream applies to each label; ContainsLabelAt's contract states it field by field |
| `CoreLabelSequences.AnyMatch` | src/java/com/articulate/sigma/semRewrite/substitutor/CoreLabelSequence.java:70-74 | the front-to-back scan is true exactly when some label meets the match predicate |
| `CoreLabelSequences.ContainsLabelAt` | src/java/com/articulate/sigma/semRewrite/substitutor/CoreLabelSequence.java:68-75 | true exactly when some label has the given text and index and either the given sentence index or the query's sentence index is IGNORE_SENTENCE |
| `CoreLabelSequences.WildcardMonotone` | src/java/com/articulate/sigma/semRewrite/substitutor/CoreLabelSequence.java:70-74 | a query that holds with any sentence index also holds with IGNORE_SENTENCE |
| `CoreLabelSequences.ConcreteQueryIsMembership` | src/java/com/articulate/sigma/semRewrite/substitutor/CoreLabelSequence.java:58-75 | with a sentence index other than IGNORE_SENTENCE, the three-field query holds exactly when the label built from those fields is a member |
| `CoreLabelSequences.WildcardQueryIsSomeSentence` | src/java/com/articulate/sigma/semRewrite/substitutor/CoreLabelSequence.java:68-75 | the wildcard query holds exactly when, for some sentence index, the label with that text and index is a member |
| `CoreLabelSequences.MemberAnswersOwnQuery` | src/java/com/articulate/sigma/semRewrite/substitutor/CoreLabelSequence.java:58-75 | every member label answers the three-field query built from its own fields |
| `CoreLabelSequences.Texts` | src/java/com/articulate/sigma/semRewrite/substitutor/CoreLabelSequence.java:78 | one text per label, each the original text of the label at the same position |
| `CoreLabelSequences.ToText` | src/java/com/articulate/sigma/semRewrite/substitutor/CoreLabelSequence.java:77-79 | `toText`, the texts joined with "_"; its value is fixed by ToTextEmpty, ToTextSingle and ToTextSnoc, and ToTextSplit reads it back for a non-empty sequence; toText cannot tell the empty sequence from one label with empty text (ToTextEmptyTextCollides) |
| `CoreLabelSequences.ToTextEmpty` | src/java/com/articulate/sigma/semRewrite/substitutor/CoreLabelSequence.java:77-79 | the empty sequence renders as "" |
| `CoreLabelSequences.ToTextSingle` | src/java/com/articulate/sigma/semRewrite/substitutor/CoreLabelSequence.java:77-79 | a single label renders as its original text |
| `CoreLabelSequences.ToTextSnoc` | src/java/com/articulate/sigma/semRewrite/substitutor/CoreLabelSequence.java:77-79 | appending a label to a non-empty sequence appends "_" and then its text |
| `CoreLabelSequences.ToTextEmptyTextCollides` | src/java/com/articulate/sigma/semRewrite/substitutor/CoreLabelSequence.java:77-79 | the empty sequence and a single label with empty text both render as "", though the sequences differ |
| `CoreLabelSequences.ToTextLength` | src/java/com/articulate/sigma/semRewrite/substitutor/CoreLabelSequence.java:77-79 | the text's length is the words' total length plus one '_' per gap |
| `CoreLabelSequences.ToTextSplit` | src/java/com/articulate/sigma/semRewrite/substitutor/CoreLabelSequence.java:77-79 | for a non-empty sequence in which no word contains '_', splitting the text at '_' gives back the words in order |
| `CoreLabelSequences.ToLabelString` | src/java/com/articulate/sigma/semRewrite/substitutor/CoreLabelSequence.java:81-90 | the result is empty exactly when the sequence is empty |
| `CoreLabelSequences.ToLabelStringShape` | src/java/com/articulate/sigma/semRewrite/substitutor/CoreLabelSequence.java:83-85 | for a non-empty sequence the label string is toText, then '-', then the first label's index in decimal, and nothing else |
| `CoreLabelSequences.ToLabelStringDependsOnTextsAndFirstIndex` | src/java/com/articulate/sigma/semRewrite/substitutor/CoreLabelSequence.java:83-89 | two sequences with the same texts and the same first index have the same label string, whatever their sentence indices and later indices |
| `CoreLabelSequences.ParseLabelString` | src/java/com/articulate/sigma/semRewrite/substitutor/CoreLabelSequence.java:84-85 | a successful read gives a non-negative index and a text shorter than the label string |
| `CoreLabelSequences.LabelStringRoundTrip` | src/java/com/articulate/sigma/semRewrite/substitutor/CoreLabelSequence.java:81-90 | when the first index is not negative, splitting the label string at its last '-' gives back toText and that index |
| `CoreLabelSequences.NegativeIndexLabelStringIsAmbiguous` | src/java/com/articulate/sigma/semRewrite/substitutor/CoreLabelSequence.java:84-85 | for n > 0, a label with index -n and a label whose text has an extra '-' and whose index is n give the same label string |

## Left out

- test/integration/java/com/articulate/sigma/trans/TPTPGenerationTest.java is not part of this model. It loads a knowledge base, generates prover files, reads and hashes files, and measures time. All of that is I/O.
- CoreNLP's `CoreLabel.equals` compares every annotation of a label. Here a label has only the three fields the class reads, and equality is structural equality on them.
- Null is not modelled, because Dafny strings and datatype values cannot be null. In Java the constructors throw NullPointerException on a null list or a null element. `containsLabel(null)` returns false. `containsLabel(sentIndex, null, index)` throws only when it reaches `text.equals` for some label, i.e. when a label's sentence index matches or the wildcard is used. On an empty sequence, or when no sentence index matches, it returns false.
- Labels are modelled as values. The copy of the list holds references to the caller's `CoreLabel` objects, which are mutable (`setOriginalText`, `setIndex`, `setSentIndex`). A later change to such an object changes what `toText`, `toLabelString` and both `containsLabel` queries answer. The model does not capture this sharing.
- Java strings are UTF-16 code-unit sequences. Here they are `seq<char>`, with no encoding.
- `hashCode`, `toString` and object identity are not modelled. The class does not override any of them.
