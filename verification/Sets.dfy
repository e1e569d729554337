/** Sizes of finite sets, shared by the counting arguments. */
module Sets {
  lemma SubsetSize<T>(small: set<T>, big: set<T>)
    requires small <= big
    ensures |small| <= |big| && (|small| == |big| <==> small == big)
  {
    var rest := big - small;
    assert small * rest == {};
    assert |small + rest| == |small| + |rest|;
    assert small + rest == big;
  }
}
