/**
 * The video sink (an OpenCV VideoWriter): a file path, a codec tag, a frame
 * rate and a frame size fixed at construction, and the frames written so far.
 */
module Video {
  import opened Images

  class VideoWriter {
    const path: string
    const fourcc: string
    const fps: int
    const width: nat
    const height: nat
    /** Every frame accepted so far, in write order. */
    var frames: seq<Picture>
    var released: bool

    constructor (path: string, fourcc: string, fps: int, width: nat, height: nat)
      ensures this.path == path && this.fourcc == fourcc && this.fps == fps
      ensures this.width == width && this.height == height
      ensures frames == [] && !released
    {
      this.path := path;
      this.fourcc := fourcc;
      this.fps := fps;
      this.width := width;
      this.height := height;
      frames := [];
      released := false;
    }

    /** Append one frame; a released writer ignores it. */
    method Write(frame: Picture)
      modifies this
      ensures frames == if old(released) then old(frames) else old(frames) + [frame]
      ensures released == old(released)
    {
      if !released {
        frames := frames + [frame];
      }
    }

    /** Close the file; the frames written so far are what the video holds. */
    method Release()
      modifies this
      ensures released && frames == old(frames)
    {
      released := true;
    }
  }
}
