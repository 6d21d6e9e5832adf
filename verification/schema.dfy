/** The feature schema shared by preprocessing, serving and drift monitoring. */
module Schema {

  /** `FEATURE_COLUMNS`: the six model inputs, in the order of the model's input row. */
  const FeatureColumns: seq<string> :=
    ["char_len", "word_len", "num_digits", "num_urls", "num_domains", "upper_ratio"]

  /** Every feature column has a value in `features`. */
  predicate HasFeatureColumns<V>(features: map<string, V>)
  {
    forall k :: 0 <= k < |FeatureColumns| ==> FeatureColumns[k] in features
  }

  /** No feature name is listed twice. */
  lemma FeatureColumnsDistinct()
    ensures forall i, j :: 0 <= i < j < |FeatureColumns| ==> FeatureColumns[i] != FeatureColumns[j]
  {
    assert FeatureColumns[0][0] == 'c' && FeatureColumns[1][0] == 'w' && FeatureColumns[5][0] == 'u';
    assert FeatureColumns[2][4] == 'd' && FeatureColumns[3][4] == 'u' && FeatureColumns[4][6] == 'm';
  }
}
