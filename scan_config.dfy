/** The configuration block of audio-scan.py. */
module ScanConfig {
  const SampleRate: nat := 22050              // Hz
  const SlideInterval: nat := 3               // seconds between window starts
  const HopLength: nat := 1024                // samples between chroma frames
  const CorrelationThreshold: real := 0.8     // default --correlation-threshold
  const RefinementTrigger: real := 0.42       // refine when a new best reaches this
  const RefinementThreshold: real := 0.8      // stop refining (and searching) at this
  const RefinementWindow: real := 15.0        // seconds searched on each side of a coarse match
  const RefinementInterval: real := 0.5       // seconds between refinement sub-windows
  const PitchClasses: nat := 12               // rows of a chromagram
}
