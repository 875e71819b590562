/**
 * The three annotations of a Stanford CoreNLP token label that a
 * CoreLabelSequence reads: the sentence it belongs to, the word as it
 * appeared in the text, and its position in the sentence.
 */
module CoreLabels {

  import opened JavaInt

  datatype CoreLabel = CoreLabel(sentIndex: Int32, originalText: string, index: Int32)
}
