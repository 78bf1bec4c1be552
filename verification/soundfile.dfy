/** What the tools learn about an input file from libsndfile: container and
    sample encoding, channel and frame counts, sample rate. Reading and
    writing the sample data itself is outside the model; the tools receive
    the interleaved samples as a sequence. */
module SoundFile {

  datatype Container = Wav | OtherContainer

  datatype Encoding = Pcm16 | OtherEncoding

  datatype SndInfo = SndInfo(container: Container, encoding: Encoding, channels: nat, frames: nat, sampleRate: nat)

  predicate IsPcm16Wav(info: SndInfo)
  {
    info.container == Wav && info.encoding == Pcm16
  }
}
