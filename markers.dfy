/** Marker codes of ITU-T T.81 table B.1 (the second byte after 0xFF) and the
    status codes the DPU parser returns. */
module Markers {

  const SOF0: int := 0xC0
  const SOF1: int := 0xC1
  const SOF2: int := 0xC2
  const SOF3: int := 0xC3
  const DHT: int := 0xC4
  const SOF5: int := 0xC5
  const SOF7: int := 0xC7
  const JPG: int := 0xC8
  const SOF9: int := 0xC9
  const SOF11: int := 0xCB
  const DAC: int := 0xCC
  const SOF13: int := 0xCD
  const SOF15: int := 0xCF
  const RST_FIRST: int := 0xD0
  const RST_LAST: int := 0xD7
  const SOI: int := 0xD8
  const EOI: int := 0xD9
  const SOS: int := 0xDA
  const DQT: int := 0xDB
  const DNL: int := 0xDC
  const DRI: int := 0xDD
  const DHP: int := 0xDE
  const EXP: int := 0xDF
  const APP_FIRST: int := 0xE0
  const APP_LAST: int := 0xEF
  const EXT_FIRST: int := 0xF0
  const EXT_LAST: int := 0xFD
  const COM: int := 0xFE

  predicate IsRst(m: int) { RST_FIRST <= m <= RST_LAST }
  predicate IsApp(m: int) { APP_FIRST <= m <= APP_LAST }
  predicate IsExt(m: int) { EXT_FIRST <= m <= EXT_LAST }

  /** `JPEG_VALID` / `JPEG_INVALID_ERROR_CODE`; their numeric values live in a
      header that is not part of this model, only their distinctness matters. */
  datatype Status = JpegValid | JpegInvalid
}
