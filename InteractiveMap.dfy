/**
 * The interactive trail map: the list of trail points, at most one of them
 * expanded, and the image modal with its selected images, current index and
 * keyboard navigation.
 */
module InteractiveMap {
  import opened Wrappers
  import Cycle

  /** An image or video of a trail point; the asset reference stands for the image. */
  datatype Media = Media(asset: Option<string>, videoUrl: Option<string>, isYoutube: Option<bool>)

  /** A trail point; its day, distance, difficulty and texts are only displayed and are not modelled. */
  datatype TrailPoint = TrailPoint(id: string, title: string, images: Option<seq<Media>>)

  /** Number of thumbnails shown inside an expanded trail point. */
  const ThumbnailLimit: nat := 4

  /** The `setExpandedPoint` updater: the same id collapses the point, any other id expands that one. */
  function Toggled(prev: Option<string>, id: string): (r: Option<string>)
    ensures r == None <==> prev == Some(id)
    ensures r != None ==> r == Some(id)
  {
    if prev == Some(id) then None else Some(id)
  }

  /** `point.images.slice(0, 4)`: the thumbnails rendered for an expanded point. */
  function Thumbnails(images: seq<Media>): (r: seq<Media>)
    ensures |r| == if |images| < ThumbnailLimit then |images| else ThumbnailLimit
    ensures forall k :: 0 <= k < |r| ==> r[k] == images[k]
  {
    if |images| < ThumbnailLimit then images else images[..ThumbnailLimit]
  }

  class MapView {
    const points: seq<TrailPoint>
    var expandedPoint: Option<string>
    var imageModalOpen: bool
    var selectedImages: seq<Media>
    var currentImageIndex: int

    /** The index points into the selected images whenever there are any. */
    ghost predicate Valid()
      reads this`selectedImages, this`currentImageIndex
    {
      0 <= currentImageIndex && (|selectedImages| > 0 ==> currentImageIndex < |selectedImages|)
    }

    constructor (points: seq<TrailPoint>)
      ensures Valid() && this.points == points
      ensures expandedPoint == None && !imageModalOpen && selectedImages == [] && currentImageIndex == 0
    {
      this.points := points;
      expandedPoint := None;
      imageModalOpen := false;
      selectedImages := [];
      currentImageIndex := 0;
    }

    /** The modal is rendered only when it is open and has images. */
    predicate ModalShown()
      reads this`imageModalOpen, this`selectedImages
    {
      imageModalOpen && |selectedImages| > 0
    }

    /** The image or video the modal displays. */
    function CurrentMedia(): (r: Option<Media>)
      reads this`selectedImages, this`currentImageIndex
      requires Valid()
      ensures r.Some? <==> |selectedImages| > 0
    {
      if |selectedImages| > 0 then Some(selectedImages[currentImageIndex]) else None
    }

    /** `handlePointToggle(id)`. */
    method HandlePointToggle(id: string)
      modifies this`expandedPoint
      ensures expandedPoint == Toggled(old(expandedPoint), id)
    {
      expandedPoint := Toggled(expandedPoint, id);
    }

    /** `handleImageClick(images, startIndex)`: select the images, start at the given one, open. */
    method HandleImageClick(images: seq<Media>, startIndex: int)
      requires 0 <= startIndex && (|images| > 0 ==> startIndex < |images|)
      modifies this`selectedImages, this`currentImageIndex, this`imageModalOpen
      ensures Valid()
      ensures selectedImages == images && currentImageIndex == startIndex && imageModalOpen
    {
      selectedImages := images;
      currentImageIndex := startIndex;
      imageModalOpen := true;
    }

    /** `handleCloseImageModal`: whatever the state, closed with no images at index 0. */
    method HandleCloseImageModal()
      modifies this`selectedImages, this`currentImageIndex, this`imageModalOpen
      ensures Valid() && !ModalShown()
      ensures !imageModalOpen && selectedImages == [] && currentImageIndex == 0
    {
      imageModalOpen := false;
      selectedImages := [];
      currentImageIndex := 0;
    }

    /** `handleNextImage`: nothing without images, otherwise one step forward with wrap-around. */
    method HandleNextImage()
      requires Valid()
      modifies this`currentImageIndex
      ensures Valid()
      ensures |selectedImages| == 0 ==> currentImageIndex == old(currentImageIndex)
      ensures |selectedImages| > 0 ==> currentImageIndex == Cycle.Next(old(currentImageIndex), |selectedImages|)
    {
      if |selectedImages| == 0 {
        return;
      }
      Cycle.StepsStayInRange(currentImageIndex, |selectedImages|);
      currentImageIndex := Cycle.Next(currentImageIndex, |selectedImages|);
    }

    /** `handlePrevImage`: nothing without images, otherwise one step back with wrap-around. */
    method HandlePrevImage()
      requires Valid()
      modifies this`currentImageIndex
      ensures Valid()
      ensures |selectedImages| == 0 ==> currentImageIndex == old(currentImageIndex)
      ensures |selectedImages| > 0 ==> currentImageIndex == Cycle.Prev(old(currentImageIndex), |selectedImages|)
    {
      if |selectedImages| == 0 {
        return;
      }
      Cycle.StepsStayInRange(currentImageIndex, |selectedImages|);
      currentImageIndex := Cycle.Prev(currentImageIndex, |selectedImages|);
    }

    /**
     * A `keydown` on the document. Both listeners are registered only while
     * the modal is open: the first closes on Escape, the second steps on the
     * arrow keys; every other key falls through both.
     */
    method HandleKeyDown(key: string)
      requires Valid()
      modifies this`selectedImages, this`currentImageIndex, this`imageModalOpen
      ensures Valid()
      ensures !old(imageModalOpen) || (key != "Escape" && key != "ArrowLeft" && key != "ArrowRight") ==>
        imageModalOpen == old(imageModalOpen) && selectedImages == old(selectedImages) &&
        currentImageIndex == old(currentImageIndex)
      ensures old(imageModalOpen) && key == "Escape" ==>
        !imageModalOpen && selectedImages == [] && currentImageIndex == 0
      ensures old(imageModalOpen) && key == "ArrowLeft" && |old(selectedImages)| > 0 ==>
        imageModalOpen && selectedImages == old(selectedImages) &&
        currentImageIndex == Cycle.Prev(old(currentImageIndex), |old(selectedImages)|)
      ensures old(imageModalOpen) && key == "ArrowRight" && |old(selectedImages)| > 0 ==>
        imageModalOpen && selectedImages == old(selectedImages) &&
        currentImageIndex == Cycle.Next(old(currentImageIndex), |old(selectedImages)|)
      ensures old(imageModalOpen) && (key == "ArrowLeft" || key == "ArrowRight") && |old(selectedImages)| == 0 ==>
        imageModalOpen && selectedImages == old(selectedImages) && currentImageIndex == old(currentImageIndex)
    {
      if !imageModalOpen {
        return;
      }
      if key == "Escape" && imageModalOpen {
        HandleCloseImageModal();
      }
      if key == "ArrowLeft" {
        HandlePrevImage();
      } else if key == "ArrowRight" {
        HandleNextImage();
      }
    }

    /** A click on thumbnail `index` of the modal's strip: `setCurrentImageIndex(index)`. */
    method SelectThumbnail(index: int)
      requires Valid() && 0 <= index < |selectedImages|
      modifies this`currentImageIndex
      ensures Valid() && currentImageIndex == index
      ensures CurrentMedia() == Some(selectedImages[index])
    {
      currentImageIndex := index;
    }

    /**
     * A click on thumbnail `k` of an expanded point: only the first four are
     * rendered, but the modal receives the point's full image list.
     */
    method ClickPointThumbnail(point: TrailPoint, k: int)
      requires point.images.Some? && 0 <= k < |Thumbnails(point.images.value)|
      modifies this`selectedImages, this`currentImageIndex, this`imageModalOpen
      ensures Valid() && ModalShown()
      ensures selectedImages == point.images.value && currentImageIndex == k
      ensures CurrentMedia() == Some(Thumbnails(point.images.value)[k])
    {
      HandleImageClick(point.images.GetOr([]), k);
    }
  }

  // ---------------------------------------------------------------------------
  // Lemmas

  /**
   * Toggling the same point twice restores the state when nothing or that
   * point was expanded; when another point was expanded, the first toggle
   * replaces it and the second leaves every point collapsed.
   */
  lemma ToggleTwice(prev: Option<string>, id: string)
    ensures prev == None || prev == Some(id) ==> Toggled(Toggled(prev, id), id) == prev
    ensures prev != None && prev != Some(id) ==> Toggled(Toggled(prev, id), id) == None
  {
  }

  /** Toggling a point while another one is expanded collapses the other: at most one is ever expanded. */
  lemma ToggleOther(a: string, b: string)
    requires a != b
    ensures Toggled(Some(a), b) == Some(b)
  {
  }

  /** Every thumbnail of a point leads to an image of that point at the same position. */
  lemma ThumbnailsArePrefix(images: seq<Media>)
    ensures Thumbnails(images) == images[..|Thumbnails(images)|]
    ensures |images| > ThumbnailLimit ==> |Thumbnails(images)| == ThumbnailLimit
  {
    if |images| < ThumbnailLimit {
      assert images[..|images|] == images;
    }
  }
}
