/** Capturing the current video frame as a small JPEG and keeping only its
    base64 payload: the size arithmetic and the header strip of
    resizeAndEncodeImage in src/App.tsx. */
module FrameCapture {
  import opened Optional

  type Positive = n: nat | n > 0 witness 1

  /** What the capture sees of the video element. `toDataUrl` stands for the
      canvas: given the canvas width and height, it is what
      `canvas.toDataURL("image/jpeg")` returns once the frame has been drawn
      at that size (the JPEG encoder itself is not modelled). */
  datatype VideoFrame = VideoFrame(
    videoWidth: Positive,
    videoHeight: nat,
    hasContext: bool,
    toDataUrl: (nat, nat) -> string)

  /** Every captured frame is 64 pixels wide. */
  const CanvasWidth: nat := 64

  /** The prefix `toDataURL("image/jpeg")` puts before the payload; the
      prompt puts the same prefix back in front of it. */
  const JpegHeader: string := "data:image/jpeg;base64"

  function JpegDataUrl(imgBase64: string): string
  {
    JpegHeader + "," + imgBase64
  }

  /** The canvas height, `Math.round(64 * videoHeight / videoWidth)`: the
      exact ratio rounded to the nearest integer, halves rounded up. */
  function CanvasHeight(videoWidth: Positive, videoHeight: nat): (h: nat)
    ensures 2 * videoWidth * h <= 2 * CanvasWidth * videoHeight + videoWidth
    ensures 2 * CanvasWidth * videoHeight + videoWidth < 2 * videoWidth * (h + 1)
  {
    (2 * CanvasWidth * videoHeight + videoWidth) / (2 * videoWidth)
  }

  /** The two bounds above pin the height down: no other value is within a
      half of the exact ratio in the same way. */
  lemma HeightIsUnique(videoWidth: Positive, videoHeight: nat, n: nat)
    requires 2 * videoWidth * n <= 2 * CanvasWidth * videoHeight + videoWidth
    requires 2 * CanvasWidth * videoHeight + videoWidth < 2 * videoWidth * (n + 1)
    ensures n == CanvasHeight(videoWidth, videoHeight)
  {
    var h := CanvasHeight(videoWidth, videoHeight);
    var w2 := 2 * videoWidth;
    MulMonotone(w2, n + 1, h);
    MulMonotone(w2, h + 1, n);
  }

  lemma MulMonotone(k: nat, a: nat, b: nat)
    ensures a <= b ==> k * a <= k * b
  {
  }

  /** A 640 by 480 source gives a 64 by 48 frame. */
  lemma VgaFrameSize()
    ensures CanvasHeight(640, 480) == 48
  {
  }

  /** `s.split(sep)` for a one-character separator: the pieces between the
      separators, in order; a string without the separator is one piece. */
  function Split(s: string, sep: char): (pieces: seq<string>)
    ensures |pieces| >= 1
    ensures |pieces| == 1 <==> sep !in s
    ensures forall k :: 0 <= k < |pieces| ==> sep !in pieces[k]
  {
    if s == [] then [[]]
    else
      var rest := Split(s[1..], sep);
      if s[0] == sep then [[]] + rest
      else [[s[0]] + rest[0]] + rest[1..]
  }

  /** The inverse of Split: the pieces with the separator between them. */
  function Join(pieces: seq<string>, sep: char): string
    requires |pieces| >= 1
  {
    if |pieces| == 1 then pieces[0] else pieces[0] + [sep] + Join(pieces[1..], sep)
  }

  lemma {:induction false} SplitJoin(s: string, sep: char)
    ensures Join(Split(s, sep), sep) == s
  {
    if s != [] {
      var rest := Split(s[1..], sep);
      SplitJoin(s[1..], sep);
      if s[0] == sep {
        assert Split(s, sep)[1..] == rest;
      } else {
        var pieces := Split(s, sep);
        assert pieces[1..] == rest[1..];
        if |rest| == 1 {
          assert Join(rest, sep) == rest[0];
        } else {
          assert Join(rest, sep) == rest[0] + [sep] + Join(rest[1..], sep);
        }
      }
    }
  }

  /** Splitting text that starts with a separator-free prefix and a separator. */
  lemma {:induction false} SplitAfterPrefix(prefix: string, sep: char, rest: string)
    requires sep !in prefix
    ensures Split(prefix + [sep] + rest, sep) == [prefix] + Split(rest, sep)
  {
    var s := prefix + [sep] + rest;
    if prefix == [] {
      assert s[0] == sep && s[1..] == rest;
    } else {
      assert s[0] == prefix[0] && s[1..] == prefix[1..] + [sep] + rest;
      SplitAfterPrefix(prefix[1..], sep, rest);
      assert [prefix[0]] + prefix[1..] == prefix;
    }
  }

  /** `dataUrl.split(",")[1]`: the text after the first comma, up to the next
      comma; `undefined` (None) when there is no comma at all. */
  function Base64Part(dataUrl: string): (part: Option<string>)
    ensures part.None? <==> ',' !in dataUrl
    ensures part.Some? ==> ',' !in part.value
  {
    var pieces := Split(dataUrl, ',');
    if |pieces| >= 2 then Some(pieces[1]) else None
  }

  /** Stripping the header gives back exactly the payload that followed it. */
  lemma StripsHeader(header: string, payload: string)
    requires ',' !in header && ',' !in payload
    ensures Base64Part(header + "," + payload) == Some(payload)
  {
    assert header + "," + payload == header + [','] + payload;
    SplitAfterPrefix(header, ',', payload);
    SplitJoin(payload, ',');
  }

  /** The resolved value of resizeAndEncodeImage: "" without a 2D context,
      otherwise the base64 part of the canvas's data URL at 64 by the
      rounded height. */
  function ResizeAndEncode(video: VideoFrame): (r: Option<string>)
    ensures !video.hasContext ==> r == Some("")
    ensures video.hasContext ==>
      (r.None? <==> ',' !in video.toDataUrl(CanvasWidth, CanvasHeight(video.videoWidth, video.videoHeight)))
    ensures r.Some? ==> ',' !in r.value
  {
    if video.hasContext then
      Base64Part(video.toDataUrl(CanvasWidth, CanvasHeight(video.videoWidth, video.videoHeight)))
    else Some("")
  }

  /** JavaScript truthiness of the captured value: undefined and "" are falsy. */
  predicate Truthy(img: Option<string>)
  {
    img.Some? && img.value != ""
  }

  /** What the capture yields: nothing usable without a context; with one,
      the payload the encoder produced for a 64-pixel-wide canvas. */
  lemma CaptureYieldsPayload(video: VideoFrame, payload: string)
    requires video.hasContext
    requires video.toDataUrl(CanvasWidth, CanvasHeight(video.videoWidth, video.videoHeight)) == JpegDataUrl(payload)
    requires ',' !in payload
    ensures ResizeAndEncode(video) == Some(payload)
    ensures Truthy(ResizeAndEncode(video)) <==> payload != ""
  {
    StripsHeader(JpegHeader, payload);
  }

  lemma CaptureWithoutContext(video: VideoFrame)
    requires !video.hasContext
    ensures ResizeAndEncode(video) == Some("") && !Truthy(ResizeAndEncode(video))
  {
  }
}
