/** Queues that lose nothing: what is in, with what goes in, is what comes out with what stays. */
module Conservation {
  /** Two conserving steps make one: contents `c`, then `c'`, then `last`; in `i`, `i'`; out `o`, `o'`. */
  lemma Chained<T>(c: seq<T>, i: seq<T>, o: seq<T>, c': seq<T>, i': seq<T>, o': seq<T>, last: seq<T>)
    requires c + i == o + c' && c' + i' == o' + last
    ensures c + (i + i') == (o + o') + last
  {
    assert c + (i + i') == (c + i) + i' == o + (c' + i') == o + (o' + last);
  }
}
