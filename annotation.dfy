/**
 * Frames, the marks drawn on them, and the multipart framing of each emitted
 * chunk. Pixels are not modelled: a frame is the image read from the stream
 * together with the marks drawn on it so far, in drawing order.
 */
module Annotation {

  import opened EmbeddingCodec

  /** A face location as the detector reports it: (top, right, bottom, left). */
  datatype Box = Box(top: int, right: int, bottom: int, left: int)

  /** Where a full-frame pixel coordinate lands on the frame resized by 0.5. */
  function Downscaled(x: int): int {
    x / 2
  }

  /**
   * Detection runs on the frame resized by 0.5; each coordinate of the box is
   * doubled before drawing, so the drawn box downscales to the detected one
   * and is twice as tall and twice as wide.
   */
  function ToFullFrame(b: Box): (r: Box)
    ensures Downscaled(r.top) == b.top && Downscaled(r.right) == b.right
    ensures Downscaled(r.bottom) == b.bottom && Downscaled(r.left) == b.left
    ensures r.bottom - r.top == 2 * (b.bottom - b.top) && r.right - r.left == 2 * (b.right - b.left)
  {
    Box(2 * b.top, 2 * b.right, 2 * b.bottom, 2 * b.left)
  }

  datatype Point = Point(x: int, y: int)

  /** A colour in OpenCV's blue, green, red order. */
  datatype Color = Color(blue: int, green: int, red: int)

  const AuthorizedColor := Color(0, 255, 0)
  const IntrusoColor := Color(0, 0, 255)

  datatype Mark =
    | Rectangle(corner: Point, opposite: Point, color: Color, thickness: nat)
    | Text(text: string, origin: Point, color: Color, fontScale: real, thickness: nat)

  /** The image as read from the stream; its pixels are opaque. */
  datatype Image = Image(id: nat)

  datatype Frame = Frame(image: Image, marks: seq<Mark>)

  /** The two marks drawn for one face: its box, and its label 10 pixels above the box. */
  function FaceMarks(detected: Box, caption: string, color: Color): seq<Mark> {
    var b := ToFullFrame(detected);
    [Rectangle(Point(b.left, b.top), Point(b.right, b.bottom), color, 2),
     Text(caption, Point(b.left, b.top - 10), color, 0.8, 2)]
  }

  /** cv2.rectangle then cv2.putText on the same frame buffer. */
  function DrawFace(f: Frame, detected: Box, caption: string, color: Color): Frame {
    f.(marks := f.marks + FaceMarks(detected, caption, color))
  }

  // ---------------------------------------------------------------------------
  // Chunk framing

  /** The boundary and part header that open every chunk. */
  const PartHeader: string := "--frame\r\nContent-Type: image/jpeg\r\n\r\n"

  /** PartHeader as bytes (each character's code). */
  const HeaderBytes: seq<Byte> :=
    [45, 45, 102, 114, 97, 109, 101, 13, 10,
     67, 111, 110, 116, 101, 110, 116, 45, 84, 121, 112, 101, 58, 32,
     105, 109, 97, 103, 101, 47, 106, 112, 101, 103, 13, 10, 13, 10]

  lemma HeaderBytesSpellPartHeader()
    ensures |HeaderBytes| == |PartHeader| && forall k :: 0 <= k < |PartHeader| ==> HeaderBytes[k] == PartHeader[k] as int
  {
  }

  const Crlf: seq<Byte> := [13, 10]

  /** One part of the multipart response: header, JPEG bytes, CRLF. */
  function Chunk(jpeg: seq<Byte>): seq<Byte> {
    HeaderBytes + jpeg + Crlf
  }

  /** A chunk opens with the part header and closes with CRLF. */
  predicate IsFramed(c: seq<Byte>) {
    |c| >= |HeaderBytes| + 2 && c[..|HeaderBytes|] == HeaderBytes && c[|c| - 2..] == Crlf
  }

  /** What a consumer takes out of a framed chunk. */
  function Payload(c: seq<Byte>): seq<Byte>
    requires IsFramed(c)
  {
    c[|HeaderBytes|..|c| - 2]
  }

  lemma SplitThree(h: seq<Byte>, body: seq<Byte>, t: seq<Byte>)
    ensures (h + body + t)[..|h|] == h
    ensures (h + body + t)[|h + body + t| - |t|..] == t
    ensures (h + body + t)[|h|..|h + body + t| - |t|] == body
  {
  }

  /** Every chunk is framed, and its payload is exactly the encoded frame. */
  lemma ChunkFraming(jpeg: seq<Byte>)
    ensures IsFramed(Chunk(jpeg)) && Payload(Chunk(jpeg)) == jpeg
    ensures |Chunk(jpeg)| == |PartHeader| + |jpeg| + 2
  {
    SplitThree(HeaderBytes, jpeg, Crlf);
  }
}
