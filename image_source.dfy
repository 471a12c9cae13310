/**
 * load_images_from_folder (src/mosaic_creator.py, lines 11-38): filter the
 * directory listing to image files, sort them by their numeric key, decode
 * each one and keep the images that decoded. The directory listing and the
 * decoder are inputs: `listing` is what os.listdir returned and `decode` is
 * cv2.imread applied to the file in the folder, None when it cannot decode.
 */
module ImageSource {
  import opened Options
  import opened FileNames
  import opened FileOrder

  /** The images decoded from `files`, in file order, skipping files that fail to decode. */
  function DecodeAll<T>(files: seq<string>, decode: string -> Option<T>): (images: seq<T>)
    ensures |images| <= |files|
  {
    if files == [] then []
    else
      var last := files[|files| - 1];
      DecodeAll(files[..|files| - 1], decode) + (match decode(last) case Some(img) => [img] case None => [])
  }

  /** The files that load_images_from_folder tries to decode, in the order it tries them. */
  function OrderedFiles(listing: seq<string>): seq<string> {
    SortByKey(ExtractNumber, ImageFiles(listing))
  }

  /** What load_images_from_folder returns for the listing `listing`. */
  function LoadedImages<T>(listing: seq<string>, decode: string -> Option<T>): seq<T> {
    DecodeAll(OrderedFiles(listing), decode)
  }

  /**
   * The loop of load_images_from_folder: the files are tried in sorted order
   * and every image that decodes is appended.
   */
  method LoadImagesFromFolder<T>(listing: seq<string>, decode: string -> Option<T>) returns (images: seq<T>)
    ensures images == LoadedImages(listing, decode)
    ensures |images| <= |OrderedFiles(listing)|
  {
    images := [];
    var imageFiles := ImageFiles(listing);   // the comprehension
    imageFiles := SortByKey(ExtractNumber, imageFiles);   // image_files.sort(key=extract_number)
    assert imageFiles == OrderedFiles(listing);
    for i := 0 to |imageFiles|
      invariant images == DecodeAll(imageFiles[..i], decode)
    {
      var img := decode(imageFiles[i]);
      ghost var tried := imageFiles[..i + 1];
      assert tried[..i] == imageFiles[..i] && tried[i] == imageFiles[i];
      assert DecodeAll(tried, decode) == DecodeAll(imageFiles[..i], decode) + (if img.Some? then [img.value] else []);
      if img.Some? {
        images := images + [img.value];
      }
    }
    assert imageFiles[..|imageFiles|] == imageFiles;
  }

  /** Which file each decoded image came from: one position in `files` per image. */
  function DecodedPositions<T>(files: seq<string>, decode: string -> Option<T>): (ix: seq<nat>)
    ensures |ix| == |DecodeAll(files, decode)|
  {
    if files == [] then []
    else
      var n := |files| - 1;
      var ix := DecodedPositions(files[..n], decode);
      if decode(files[n]).Some? then ix + [n] else ix
  }

  /**
   * The positions are strictly increasing, each one holds a file that decodes
   * to the image at the same index, and every file that decodes has one.
   */
  lemma {:induction false} DecodedPositionsMatchImages<T>(files: seq<string>, decode: string -> Option<T>)
    ensures var ix, images := DecodedPositions(files, decode), DecodeAll(files, decode);
      && (forall j :: 0 <= j < |ix| ==> ix[j] < |files| && decode(files[ix[j]]) == Some(images[j]))
      && (forall j1, j2 :: 0 <= j1 < j2 < |ix| ==> ix[j1] < ix[j2])
      && (forall i :: 0 <= i < |files| && decode(files[i]).Some? ==> i in ix)
    decreases |files|
  {
    if files != [] {
      var n := |files| - 1;
      var front := files[..n];
      DecodedPositionsMatchImages(front, decode);
      var ixFront, imagesFront := DecodedPositions(front, decode), DecodeAll(front, decode);
      var ix, images := DecodedPositions(files, decode), DecodeAll(files, decode);
      var decoded := decode(files[n]).Some?;
      assert ix == if decoded then ixFront + [n] else ixFront;
      assert images == if decoded then imagesFront + [decode(files[n]).value] else imagesFront;
      forall j | 0 <= j < |ix|
        ensures ix[j] < |files| && decode(files[ix[j]]) == Some(images[j])
      {
        if j < |ixFront| {
          assert files[ixFront[j]] == front[ixFront[j]];
        }
      }
      forall i | 0 <= i < |files| && decode(files[i]).Some?
        ensures i in ix
      {
        if i < n {
          assert front[i] == files[i];
        }
      }
    }
  }

  /**
   * The loaded images are the images of the sorted files that decoded, in the
   * same relative order, and there are no more of them than image files.
   */
  lemma LoadedImagesFollowFileOrder<T>(listing: seq<string>, decode: string -> Option<T>)
    ensures var files, images := OrderedFiles(listing), LoadedImages(listing, decode);
      var ix := DecodedPositions(files, decode);
      && |images| <= |files| <= |listing|
      && (forall j :: 0 <= j < |images| ==> ix[j] < |files| && decode(files[ix[j]]) == Some(images[j]))
      && (forall j1, j2 :: 0 <= j1 < j2 < |images| ==> ix[j1] < ix[j2])
      && (forall i :: 0 <= i < |files| && decode(files[i]).Some? ==> i in ix)
  {
    var files := OrderedFiles(listing);
    DecodedPositionsMatchImages(files, decode);
    assert |files| == |ImageFiles(listing)| by {
      assert |multiset(files)| == |multiset(ImageFiles(listing))|;
    }
  }

  lemma NumberedNameIsImage(d: char)
    requires IsDigit(d)
    ensures IsImageFileName("foo-" + [d] + ".jpg")
  {
    var s := "foo-" + [d] + ".jpg";
    assert BeforeFinalNewline(s) == s;
    assert '\n' !in s by {
      forall i | 0 <= i < |s| ensures s[i] != '\n' {
      }
    }
  }

  /** Sorting three names whose keys are in the order y, z, x. */
  lemma SortThree<T>(key: T -> Key, x: T, y: T, z: T)
    requires KeyLe(key(y), key(z)) && !KeyLe(key(x), key(y)) && !KeyLe(key(x), key(z))
    ensures SortByKey(key, [x, y, z]) == [y, z, x]
  {
    assert [x, y, z][1..] == [y, z] && [y, z][1..] == [z] && [z][1..] == [];
    assert SortByKey(key, [z]) == [z];
    assert SortByKey(key, [y, z]) == [y, z];
    assert Insert(key, x, [z]) == [z, x];
  }

  lemma NumberedFilesAreImages()
    ensures ImageFiles(["foo-3.jpg", "foo-1.jpg", "foo-2.jpg"]) == ["foo-3.jpg", "foo-1.jpg", "foo-2.jpg"]
  {
    var f1, f2, f3 := "foo-1.jpg", "foo-2.jpg", "foo-3.jpg";
    assert "foo-" + ['1'] + ".jpg" == f1 && "foo-" + ['2'] + ".jpg" == f2 && "foo-" + ['3'] + ".jpg" == f3;
    NumberedNameIsImage('1');
    NumberedNameIsImage('2');
    NumberedNameIsImage('3');
    var listing := [f3, f1, f2];
    assert [f3][..0] == [];
    assert ImageFiles([f3]) == [f3];
    assert [f3, f1][..1] == [f3];
    assert ImageFiles([f3, f1]) == [f3, f1];
    assert listing[..2] == [f3, f1];
  }

  lemma NumberedFileKeys()
    ensures ExtractNumber("foo-1.jpg") == Finite(1)
    ensures ExtractNumber("foo-2.jpg") == Finite(2)
    ensures ExtractNumber("foo-3.jpg") == Finite(3)
  {
    assert "foo-" + ['1'] + ".jpg" == "foo-1.jpg" && "foo-" + ['2'] + ".jpg" == "foo-2.jpg" && "foo-" + ['3'] + ".jpg" == "foo-3.jpg";
    NumberedNameKey('1');
    NumberedNameKey('2');
    NumberedNameKey('3');
  }

  /** foo-3.jpg, foo-1.jpg and foo-2.jpg are tried in the order foo-1, foo-2, foo-3. */
  lemma NumberedFilesLoadInOrder()
    ensures OrderedFiles(["foo-3.jpg", "foo-1.jpg", "foo-2.jpg"]) == ["foo-1.jpg", "foo-2.jpg", "foo-3.jpg"]
  {
    NumberedFilesAreImages();
    NumberedFileKeys();
    SortThree(ExtractNumber, "foo-3.jpg", "foo-1.jpg", "foo-2.jpg");
  }
}
