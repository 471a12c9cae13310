/**
 * main (src/mosaic_creator.py, lines 97-113) without its output step: load
 * the images, refuse to go on when there are fewer than requested, sample the
 * requested number and composite them.
 */
module MosaicPipeline {
  import opened Options
  import opened ImageSource
  import opened Sampler
  import opened GridLayout
  import opened Compositor

  /** The ValueError main raises when the folder holds fewer usable images than requested. */
  datatype MosaicError = FewerImagesThanRequested

  /**
   * Once enough images are loaded, the sample handed to create_image_mosaic
   * has exactly `numImages` images, and each of them gets its own cell of the
   * g-by-g grid, in row-major order.
   */
  lemma SampleFitsGrid<T>(images: seq<T>, numImages: int)
    requires numImages >= 1 && |images| >= numImages
    ensures var sampled, g := SampleUniformly(images, numImages), GridSize(numImages);
      && |sampled| == numImages <= Square(g)
      && (forall idx :: 0 <= idx < |sampled| ==> idx / g < g && idx % g < g)
      && (forall i, j :: 0 <= i < j < |sampled| ==> i / g < j / g || (i / g == j / g && i % g < j % g))
  {
    var g := GridSize(numImages);
    GridSizeBounds(numImages);
    CellsFillGridRowMajor(numImages, g);
  }

  /**
   * The pipeline: an error exactly when fewer images loaded than requested;
   * otherwise the mosaic of the uniform sample, on a grid of side
   * GridSize(numImages) with cells the size of the first sampled image.
   */
  method CreateMosaic(listing: seq<string>, decode: string -> Option<Image>, numImages: int)
    returns (result: Result<array2<Pixel>, MosaicError>)
    requires numImages >= 1
    requires |LoadedImages(listing, decode)| >= numImages ==>
      var sampled := SampleUniformly(LoadedImages(listing, decode), numImages);
      |sampled| >= 1 && AllHaveShape(sampled, sampled[0].height, sampled[0].width)
    ensures result.Failure? <==> |LoadedImages(listing, decode)| < numImages
    ensures result.Success? ==> fresh(result.value)
    ensures result.Success? ==>
      var sampled := SampleUniformly(LoadedImages(listing, decode), numImages);
      var g, h, w := GridSize(numImages), sampled[0].height, sampled[0].width;
      && |sampled| == numImages
      && result.value.Length0 == g * h && result.value.Length1 == g * w
      && forall y, x :: 0 <= y < g * h && 0 <= x < g * w ==> result.value[y, x] == MosaicPixel(sampled, g, h, w, y, x)
  {
    var images := LoadImagesFromFolder(listing, decode);
    if |images| < numImages {
      return Failure(FewerImagesThanRequested);
    }
    var sampled := SampleUniformly(images, numImages);
    assert Prefix(sampled, numImages) == sampled;
    var mosaic := CreateImageMosaic(sampled, numImages);
    return Success(mosaic);
  }
}
