/// Constants of the HuskyLens V2 protocol (huskylensV2.ts lines 11-95).
module Protocol {

  // Request and response command codes
  const CommandKnock := 0x20
  const CommandGetResult := 0x21
  const CommandSetAlgorithm := 0x30
  const ReturnOk := 0x40
  const ReturnInfo := 0x42
  const ReturnBlock := 0x43
  const ReturnArrow := 0x44

  // Algorithm identifiers
  const AlgorithmAny := 0
  const AlgorithmFaceRecognition := 1
  const AlgorithmLineTracking := 4
  const AlgorithmPoseRecognition := 13
  const AlgorithmHandRecognition := 14
  const AlgorithmCustom0 := 22
  const AlgorithmCount := 25          // ALGORITHM_BUILTIN_COUNT
  const AlgorithmCustomBegin := 128
  const CustomAlgorithmCount := 3

  // Sizes
  const FrameBufferSize := 128        // initial length of receive_buffer
  const MaxResultNum := 6
  const LcdWidth := 640
  const LcdHeight := 480

  // Frame layout
  const HeaderSize := 5               // PacketHead.HEADER_SIZE
  const CommandIndex := 2
  const ContentSizeIndex := 4
  const ContentIndex := 5
  const ProtocolSize := 6

  /** Number of attempts of every request/response exchange. */
  const Retry := 3
}
