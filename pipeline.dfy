/**
 * The Image class: one downloaded image taken through mask, contour filter,
 * crops and OCR, as Image.__init__ runs them.
 */
module Pipeline {
  import opened Results
  import opened Seqs
  import opened Grids
  import opened Contours
  import opened Texts

  const NoContoursMessage: string :=
    "You need to run self.get_text_boxes first or this image has no contours."

  /** The Tesseract options: English, engine mode 1, page segmentation mode 3. */
  const DefaultConfig: string := "-l eng --oem 1 --psm 3"

  ghost predicate IsRectangular(g: Grid) {
    forall i :: 0 <= i < |g| ==> |g[i]| == |g[0]|
  }

  /** The box lies within a `height` by `width` image. */
  predicate Inside(b: Box, height: nat, width: nat) {
    b.x + b.w <= width && b.y + b.h <= height
  }

  class Image {
    const url: string
    /** The greyscale image, standing for `cv2.cvtColor(self.image, cv2.COLOR_BGR2GRAY)`. */
    const gray: Grid
    const height: nat
    const width: nat
    var thresh: Grid
    var contours: seq<Contour>
    var croppedContours: seq<Grid>
    var contourTexts: seq<string>

    /** The part of Image.__init__ before detection: the image and its shape. */
    constructor (url: string, gray: Grid)
      requires IsRectangular(gray)
      ensures this.url == url && this.gray == gray
      ensures height == |gray| && width == (if gray == [] then 0 else |gray[0]|)
      ensures IsGrid(gray, height, width)
      ensures thresh == [] && contours == [] && croppedContours == [] && contourTexts == []
    {
      this.url := url;
      this.gray := gray;
      height := |gray|;
      width := if gray == [] then 0 else |gray[0]|;
      thresh, contours, croppedContours, contourTexts := [], [], [], [];
    }

    /**
     * get_text_boxes, given the contours cv2.findContours returned for the
     * eroded and dilated mask: stores the mask and runs the removal loop.
     */
    method GetTextBoxes(found: seq<Contour>) returns (kept: seq<Contour>)
      modifies this`thresh
      ensures thresh == Mask(gray)
      ensures IsGrid(gray, height, width) ==> IsGrid(thresh, height, width)
      ensures kept == Walk(found, 0, width)
      ensures Distinct(found) ==> kept == Survivors(found, width)
      ensures |kept| <= |found|
    {
      thresh := Mask(gray);
      if IsGrid(gray, height, width) {
        MaskShape(gray, height, width);
      }
      kept := FilterContours(found, width);
    }

    /** crop_contours: one crop of the mask per contour, in order; fails on no contours. */
    method CropContours() returns (r: Result<seq<Grid>>)
      ensures r.Err? <==> contours == []
      ensures r.Err? ==> r.fault == AssertionFailed(NoContoursMessage)
      ensures r.Ok? ==> |r.value| == |contours|
      ensures r.Ok? ==> forall k :: 0 <= k < |contours| ==> r.value[k] == Crop(thresh, contours[k].box)
      ensures r.Ok? && IsGrid(thresh, height, width) ==>
        forall k :: 0 <= k < |contours| && Inside(contours[k].box, height, width) ==>
          IsGrid(r.value[k], contours[k].box.h, contours[k].box.w)
          && forall i, j :: 0 <= i < contours[k].box.h && 0 <= j < contours[k].box.w ==>
               r.value[k][i][j] == thresh[contours[k].box.y + i][contours[k].box.x + j]
    {
      if contours == [] {
        return Err(AssertionFailed(NoContoursMessage));
      }
      var crops: seq<Grid> := [];
      for k := 0 to |contours|
        invariant |crops| == k
        invariant forall i :: 0 <= i < k ==> crops[i] == Crop(thresh, contours[i].box)
      {
        var b := contours[k].box;
        crops := crops + [Crop(thresh, b)];
      }
      if IsGrid(thresh, height, width) {
        forall k | 0 <= k < |contours| && Inside(contours[k].box, height, width)
          ensures IsGrid(crops[k], contours[k].box.h, contours[k].box.w)
          ensures forall i, j :: 0 <= i < contours[k].box.h && 0 <= j < contours[k].box.w ==>
                    crops[k][i][j] == thresh[contours[k].box.y + i][contours[k].box.x + j]
        {
          CropInside(thresh, height, width, contours[k].box);
        }
      }
      r := Ok(crops);
    }

    /**
     * get_contour_texts: one OCR string per crop, in crop order, and the text file
     * contents when saving. `dilate` stands for the 2x2 dilation and `tesseract`
     * for pytesseract.image_to_string.
     */
    method GetContourTexts(dilate: Grid -> Grid, tesseract: (Grid, string) -> string,
                           config: string := DefaultConfig, save: bool := true)
      returns (texts: seq<string>, file: Option<string>)
      ensures |texts| == |croppedContours|
      ensures forall k :: 0 <= k < |texts| ==> texts[k] == tesseract(dilate(croppedContours[k]), config)
      ensures file == if save then Some(Join(texts, "\n")) else None
    {
      texts := [];
      for k := 0 to |croppedContours|
        invariant |texts| == k
        invariant forall i :: 0 <= i < k ==> texts[i] == tesseract(dilate(croppedContours[i]), config)
      {
        var dilated := dilate(croppedContours[k]);
        var text := tesseract(dilated, config);
        texts := texts + [text];
      }
      file := if save then Some(Join(texts, "\n")) else None;
    }

    /**
     * The detection part of Image.__init__: contours, crops and texts in turn.
     * On success the result is the contents written to the text file.
     */
    method Detect(found: seq<Contour>, dilate: Grid -> Grid, tesseract: (Grid, string) -> string)
      returns (r: Result<string>)
      modifies this
      ensures thresh == Mask(gray)
      ensures contours == Walk(found, 0, width)
      ensures Distinct(found) ==> contours == Survivors(found, width)
      ensures r.Err? <==> contours == []
      ensures r.Err? ==> (r.fault == AssertionFailed(NoContoursMessage)
        && croppedContours == old(croppedContours) && contourTexts == old(contourTexts))
      ensures r.Ok? ==> |croppedContours| == |contours| && |contourTexts| == |contours|
      ensures r.Ok? ==> forall k :: 0 <= k < |contours| ==>
        croppedContours[k] == Crop(thresh, contours[k].box)
        && contourTexts[k] == tesseract(dilate(croppedContours[k]), DefaultConfig)
      ensures r.Ok? ==> r.value == Join(contourTexts, "\n")
    {
      contours := GetTextBoxes(found);
      var crops := CropContours();
      if crops.Err? {
        return Err(crops.fault);
      }
      croppedContours := crops.value;
      var texts, file := GetContourTexts(dilate, tesseract, DefaultConfig, true);
      contourTexts := texts;
      r := Ok(file.value);
    }
  }
}
