/** The closing body tag, which both the page enhancer and the analytics inserter splice before. */
module Markup {
  import opened Text

  const BodyEnd: string := "</body>"

  lemma BodyEndHeadUnique()
    ensures HeadUnique(BodyEnd) && BodyEnd[1..] == ['/', 'b', 'o', 'd', 'y', '>']
  {
  }
}
