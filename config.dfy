/** Fixed constants of the inference script (streamlit_app.py:71-73, 79, 127). */
module Config {
  /** Number of drug nodes; valid node indices are 0 .. NumNodes - 1. */
  const NumNodes: nat := 20
  /** Width of each random node feature vector. */
  const FeatureDim: nat := 16
  /** Width of each embedding produced by the encoder. */
  const HiddenDim: nat := 32
  /** How many distinct positive edges the generator collects. */
  const NumPositiveEdges: nat := 30
  /** The fixed decision threshold of the synergy label (compared strictly). */
  const Threshold: real := 0.5
}
