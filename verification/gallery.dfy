/** The photo gallery of a fragrance's page (components/gallery.tsx): a row
    of thumbnails and a full-screen viewer over a fixed list of images. The
    only state is which image the viewer shows, if any. */
module Gallery {

  /** `activeImage`: `null` while the viewer is closed, else the index shown. */
  datatype Viewer = Closed | Open(index: nat)

  /** What a visitor can do: click a thumbnail, an arrow or the close
      button, or press a key while the viewer has focus. */
  datatype Action = Thumbnail(idx: nat) | PreviousArrow | NextArrow | CloseButton | KeyPress(key: string)

  /** The viewer is closed or shows one of the `count` images. */
  predicate InRange(count: nat, v: Viewer)
  {
    v.Open? ==> v.index < count
  }

  /** `handlePrevious`: back one image, unless closed or at the first. */
  function Previous(v: Viewer): (r: Viewer)
    ensures v.Closed? || v.index == 0 ==> r == v
    ensures v.Open? && v.index > 0 ==> r == Open(v.index - 1)
  {
    if v.Open? && v.index > 0 then Open(v.index - 1) else v
  }

  /** `handleNext`: on one image, unless closed or at the last. */
  function Next(count: nat, v: Viewer): (r: Viewer)
    ensures v.Closed? || v.index + 1 >= count ==> r == v
    ensures v.Open? && v.index + 1 < count ==> r == Open(v.index + 1)
  {
    if v.Open? && v.index < count - 1 then Open(v.index + 1) else v
  }

  /** `handleKeyDown`: Escape closes, the arrow keys step; any other key does nothing. */
  function KeyDown(count: nat, v: Viewer, key: string): (r: Viewer)
    ensures key == "Escape" ==> r == Closed
    ensures key == "ArrowLeft" ==> r == Previous(v)
    ensures key == "ArrowRight" ==> r == Next(count, v)
    ensures key !in {"Escape", "ArrowLeft", "ArrowRight"} ==> r == v
  {
    var afterEscape := if key == "Escape" then Closed else v;
    var afterLeft := if key == "ArrowLeft" then Previous(afterEscape) else afterEscape;
    if key == "ArrowRight" then Next(count, afterLeft) else afterLeft
  }

  /** The effect of one action on the viewer. */
  function Step(count: nat, v: Viewer, a: Action): Viewer
  {
    match a
    case Thumbnail(idx) => Open(idx)
    case PreviousArrow => Previous(v)
    case NextArrow => Next(count, v)
    case CloseButton => Closed
    case KeyPress(key) => KeyDown(count, v, key)
  }

  /** A thumbnail exists for every image and for no other index. */
  predicate Possible(count: nat, a: Action)
  {
    a.Thumbnail? ==> a.idx < count
  }

  /** The viewer after a sequence of actions. */
  function Run(count: nat, v: Viewer, actions: seq<Action>): Viewer
    decreases |actions|
  {
    if actions == [] then v else Run(count, Step(count, v, actions[0]), actions[1..])
  }

  /** One possible action keeps the viewer closed or on an existing image. */
  lemma StepInRange(count: nat, v: Viewer, a: Action)
    requires InRange(count, v) && Possible(count, a)
    ensures InRange(count, Step(count, v, a))
  {
  }

  /** Whatever the visitor does, starting closed, the viewer is always closed
      or on an existing image. */
  lemma {:induction false} RunInRange(count: nat, v: Viewer, actions: seq<Action>)
    requires InRange(count, v)
    requires forall i :: 0 <= i < |actions| ==> Possible(count, actions[i])
    ensures InRange(count, Run(count, v, actions))
    decreases |actions|
  {
    if actions != [] {
      StepInRange(count, v, actions[0]);
      RunInRange(count, Step(count, v, actions[0]), actions[1..]);
    }
  }

  /** The left arrow is drawn when the viewer is past the first image. */
  predicate ShowsLeftArrow(v: Viewer)
  {
    v.Open? && v.index > 0
  }

  /** The right arrow is drawn when the viewer is before the last image. */
  predicate ShowsRightArrow(count: nat, v: Viewer)
  {
    v.Open? && v.index < count - 1
  }

  /** An arrow is drawn exactly when its handler would change the viewer. */
  lemma ArrowsShownIffEffective(count: nat, v: Viewer)
    requires InRange(count, v)
    ensures ShowsLeftArrow(v) <==> Previous(v) != v
    ensures ShowsRightArrow(count, v) <==> Next(count, v) != v
  {
  }

  /** One image of the gallery; its author credit is not shown and not modelled. */
  datatype Photo = Photo(url: string)

  /** The open viewer: the image, the counter `k / n`, and the arrows. */
  datatype Modal = Modal(url: string, position: nat, total: nat, leftArrow: bool, rightArrow: bool)

  /** What the component renders. */
  datatype Screen = Nothing | Strip(urls: seq<string>) | StripAndViewer(urls: seq<string>, modal: Modal)

  /** The gallery component with its one piece of state. */
  class Lightbox {
    const images: seq<Photo>
    var active: Viewer

    ghost predicate Valid()
      reads this
    {
      InRange(|images|, active)
    }

    /** The gallery starts with the viewer closed. */
    constructor (images: seq<Photo>)
      ensures this.images == images && active == Closed
      ensures Valid()
    {
      this.images := images;
      active := Closed;
    }

    /** A click on thumbnail `idx` opens the viewer on that image. */
    method SelectThumbnail(idx: nat)
      requires Valid() && idx < |images|
      modifies this
      ensures Valid()
      ensures active == Open(idx)
    {
      active := Open(idx);
    }

    /** `handlePrevious`. */
    method HandlePrevious()
      requires Valid()
      modifies this
      ensures Valid()
      ensures active == Previous(old(active))
    {
      if active.Open? && active.index > 0 {
        active := Open(active.index - 1);
      }
    }

    /** `handleNext`. */
    method HandleNext()
      requires Valid()
      modifies this
      ensures Valid()
      ensures active == Next(|images|, old(active))
    {
      if active.Open? && active.index < |images| - 1 {
        active := Open(active.index + 1);
      }
    }

    /** The close button. */
    method Close()
      requires Valid()
      modifies this
      ensures Valid()
      ensures active == Closed
    {
      active := Closed;
    }

    /** `handleKeyDown`: the three key tests run one after another. */
    method HandleKeyDown(key: string)
      requires Valid()
      modifies this
      ensures Valid()
      ensures active == KeyDown(|images|, old(active), key)
    {
      if key == "Escape" {
        active := Closed;
      }
      if key == "ArrowLeft" {
        HandlePrevious();
      }
      if key == "ArrowRight" {
        HandleNext();
      }
    }

    /** Performs one action; every handler is the one `Step` describes. */
    method Perform(a: Action)
      requires Valid() && Possible(|images|, a)
      modifies this
      ensures Valid()
      ensures active == Step(|images|, old(active), a)
    {
      match a
      case Thumbnail(idx) => SelectThumbnail(idx);
      case PreviousArrow => HandlePrevious();
      case NextArrow => HandleNext();
      case CloseButton => Close();
      case KeyPress(key) => HandleKeyDown(key);
    }

    /** What the component shows: nothing without images; otherwise the
        thumbnails and, when the viewer is open, the chosen image with its
        1-based position and the arrows that apply. */
    function Render(): (r: Screen)
      requires Valid()
      reads this
      ensures r == Nothing <==> |images| == 0
      ensures r.StripAndViewer? <==> |images| > 0 && active.Open?
      ensures r.StripAndViewer? ==>
        && 1 <= r.modal.position <= r.modal.total == |images|
        && r.modal.position == active.index + 1
        && r.modal.url == images[r.modal.position - 1].url
        && (r.modal.leftArrow <==> Previous(active) != active)
        && (r.modal.rightArrow <==> Next(|images|, active) != active)
      ensures !r.Nothing? ==>
        |r.urls| == |images| && forall i :: 0 <= i < |images| ==> r.urls[i] == images[i].url
    {
      if |images| == 0 then Nothing
      else
        var urls := seq(|images|, i requires 0 <= i < |images| => images[i].url);
        match active
        case Closed => Strip(urls)
        case Open(k) =>
          StripAndViewer(urls, Modal(images[k].url, k + 1, |images|, ShowsLeftArrow(active), ShowsRightArrow(|images|, active)))
    }
  }
}
