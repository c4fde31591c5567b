/**
 The pixel handling of loadImages: an image with three components per pixel
 is widened to four before upload, every other image is uploaded as it is.
 */
module Images {
  import opened GltfTypes

  /** A decoded glTF image: size, components per pixel and the pixel bytes. */
  datatype InputImage = InputImage(width: nat, height: nat, component: int, image: seq<byte>)

  /** Copies three bytes per pixel into a four-byte-per-pixel buffer. The buffer comes from
      `new unsigned char[width * height * 4]`, whose contents are indeterminate: `uninit`
      stands for them, and the fourth byte of every pixel keeps it. */
  method ExpandRgbToRgba(rgb: seq<byte>, width: nat, height: nat, uninit: seq<byte>)
    returns (rgba: seq<byte>)
    requires |rgb| >= width * height * 3
    requires |uninit| == width * height * 4
    ensures |rgba| == width * height * 4
    ensures forall j :: 0 <= j < |rgba| && j % 4 < 3 ==> rgba[j] == rgb[j / 4 * 3 + j % 4]
    ensures forall j :: 0 <= j < |rgba| && j % 4 == 3 ==> rgba[j] == uninit[j]
  {
    var pixels := width * height;
    var buffer := new byte[|uninit|](j requires 0 <= j < |uninit| => uninit[j]);
    var out, src := 0, 0;
    for i := 0 to pixels
      invariant out == 4 * i && src == 3 * i
      invariant forall j :: 0 <= j < 4 * i && j % 4 < 3 ==> buffer[j] == rgb[j / 4 * 3 + j % 4]
      invariant forall j :: 0 <= j < buffer.Length && (4 * i <= j || j % 4 == 3) ==> buffer[j] == uninit[j]
    {
      forall j | 4 * i <= j < 4 * i + 4
        ensures j / 4 == i && j % 4 == j - 4 * i
      {
        PixelOf(j, i);
      }
      buffer[out] := rgb[src];
      buffer[out + 1] := rgb[src + 1];
      buffer[out + 2] := rgb[src + 2];
      out, src := out + 4, src + 3;
    }
    rgba := buffer[..];
  }

  /** Byte j of a four-byte-per-pixel buffer belongs to pixel i. */
  lemma PixelOf(j: int, i: int)
    requires 0 <= 4 * i <= j < 4 * i + 4
    ensures j / 4 == i && j % 4 == j - 4 * i
  {
  }

  /** What loadImages uploads for an image: the widened buffer for RGB images (colour bytes
      copied pixel by pixel, the fourth byte as the new buffer held it), the image's own bytes
      otherwise. */
  predicate UploadedAs(img: InputImage, uninit: seq<byte>, buffer: seq<byte>)
  {
    if img.component == 3 then
      && |img.image| >= img.width * img.height * 3
      && |buffer| == img.width * img.height * 4
      && (forall j :: 0 <= j < |buffer| && j % 4 < 3 ==> buffer[j] == img.image[j / 4 * 3 + j % 4])
      && (forall j :: 0 <= j < |buffer| && j % 4 == 3 ==> j < |uninit| && buffer[j] == uninit[j])
    else
      buffer == img.image
  }

  /** The bytes loadImages hands to the upload for one image. */
  method UploadBuffer(img: InputImage, uninit: seq<byte>) returns (buffer: seq<byte>)
    requires img.component == 3 ==>
               |img.image| >= img.width * img.height * 3 && |uninit| == img.width * img.height * 4
    ensures UploadedAs(img, uninit, buffer)
  {
    if img.component == 3 {
      buffer := ExpandRgbToRgba(img.image, img.width, img.height, uninit);
    } else {
      buffer := img.image;
    }
  }

  /** The image loop of loadImages: one upload buffer per image, in order. */
  method UploadImages(input: seq<InputImage>, uninit: seq<seq<byte>>) returns (buffers: seq<seq<byte>>)
    requires |uninit| == |input|
    requires forall i :: 0 <= i < |input| && input[i].component == 3 ==>
               |input[i].image| >= input[i].width * input[i].height * 3
               && |uninit[i]| == input[i].width * input[i].height * 4
    ensures |buffers| == |input|
    ensures forall i :: 0 <= i < |input| ==> UploadedAs(input[i], uninit[i], buffers[i])
  {
    buffers := [];
    for i := 0 to |input|
      invariant |buffers| == i
      invariant forall j :: 0 <= j < i ==> UploadedAs(input[j], uninit[j], buffers[j])
    {
      var buffer := UploadBuffer(input[i], uninit[i]);
      buffers := buffers + [buffer];
    }
  }
}
