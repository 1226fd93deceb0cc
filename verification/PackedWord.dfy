/** The three bit operations on the children_num word, as the comparisons, sums and differences
    that the entries of the path trie use. */
module PackedWord {

  lemma TestBit(word: bv64)
    ensures word & 0x8000_0000_0000_0000 != 0 <==> word >= 0x8000_0000_0000_0000
  {
  }

  lemma SetBit(word: bv64)
    ensures word < 0x8000_0000_0000_0000 ==> word | 0x8000_0000_0000_0000 == word + 0x8000_0000_0000_0000
    ensures word >= 0x8000_0000_0000_0000 ==> word | 0x8000_0000_0000_0000 == word
  {
  }

  lemma ClearBit(word: bv64)
    ensures word < 0x8000_0000_0000_0000 ==> word & !0x8000_0000_0000_0000 == word
    ensures word >= 0x8000_0000_0000_0000 ==> word & !0x8000_0000_0000_0000 == word - 0x8000_0000_0000_0000
  {
  }
}
