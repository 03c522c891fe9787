/** The page the form completer works on, reduced to what it reads and writes:
    a tree of frames, each holding forms and input elements, and the
    breadth-first walk of getAllElementsFromPage over that tree. */
module Document {

  /** An `<input>` element. Its `type` and `name` attributes and its live
      value (what `this.value` evaluates to) are fixed; only its `value`
      attribute is ever written. An absent `type` is the empty string. */
  class InputElement {
    const inputType: string
    const name: string
    const live: string
    var value: string

    constructor (inputType: string, name: string, live: string, value: string)
      ensures this.inputType == inputType && this.name == name
      ensures this.live == live && this.value == value
    {
      this.inputType := inputType;
      this.name := name;
      this.live := live;
      this.value := value;
    }
  }

  /** A `<form>`: its input descendants in document order. */
  datatype Form = Form(inputs: seq<InputElement>)

  /** A frame: its forms, all its input elements (inside forms or not) in
      document order, and its child frames. */
  datatype Frame = Frame(forms: seq<Form>, inputs: seq<InputElement>, children: seq<Frame>)

  /** Number of frames in a list of frame trees. */
  function QueueSize(q: seq<Frame>): nat
    decreases q
  {
    if q == [] then 0 else 1 + QueueSize(q[0].children) + QueueSize(q[1..])
  }

  lemma {:induction false} QueueSizeAppend(a: seq<Frame>, b: seq<Frame>)
    ensures QueueSize(a + b) == QueueSize(a) + QueueSize(b)
    decreases |a|
  {
    if a == [] {
      assert a + b == b;
    } else {
      assert (a + b)[1..] == a[1..] + b;
      QueueSizeAppend(a[1..], b);
    }
  }

  /** The order in which a queue of frames is visited when the first frame is
      taken out and its children are put at the back, until the queue is empty. */
  function Bfs(q: seq<Frame>): seq<Frame>
    decreases QueueSize(q)
  {
    if q == [] then []
    else
      QueueSizeAppend(q[1..], q[0].children);
      [q[0]] + Bfs(q[1..] + q[0].children)
  }

  /** The frames of a list of trees, each tree parent first (reference order). */
  function Preorder(q: seq<Frame>): seq<Frame>
    decreases q
  {
    if q == [] then [] else [q[0]] + Preorder(q[0].children) + Preorder(q[1..])
  }

  lemma {:induction false} PreorderAppend(a: seq<Frame>, b: seq<Frame>)
    ensures Preorder(a + b) == Preorder(a) + Preorder(b)
    decreases |a|
  {
    if a == [] {
      assert a + b == b;
    } else {
      assert (a + b)[0] == a[0];
      assert (a + b)[1..] == a[1..] + b;
      PreorderAppend(a[1..], b);
    }
  }

  /** The walk visits every frame of the tree, each exactly as often as it
      occurs in it, and nothing else. */
  lemma {:induction false} BfsVisitsEveryFrame(q: seq<Frame>)
    ensures multiset(Bfs(q)) == multiset(Preorder(q))
    ensures |Bfs(q)| == QueueSize(q)
    decreases QueueSize(q)
  {
    if q != [] {
      var next := q[1..] + q[0].children;
      QueueSizeAppend(q[1..], q[0].children);
      BfsVisitsEveryFrame(next);
      PreorderAppend(q[1..], q[0].children);
      assert Bfs(q) == [q[0]] + Bfs(next);
      assert Preorder(q) == [q[0]] + Preorder(q[0].children) + Preorder(q[1..]);
    }
  }

  /** Frames already queued are visited first, in queue order; in particular
      the main frame comes first and its children directly after it. */
  lemma {:induction false} BfsStartsWithQueue(q: seq<Frame>)
    ensures q <= Bfs(q)
    decreases QueueSize(q)
  {
    if q != [] {
      var next := q[1..] + q[0].children;
      QueueSizeAppend(q[1..], q[0].children);
      BfsStartsWithQueue(next);
      assert q == [q[0]] + q[1..];
    }
  }

  /** The frames of the page in the order getAllElementsFromPage visits them. */
  function FrameOrder(main: Frame): (fs: seq<Frame>)
    ensures |fs| == QueueSize([main]) && fs[0] == main
  {
    BfsVisitsEveryFrame([main]);
    BfsStartsWithQueue([main]);
    Bfs([main])
  }

  /** Every frame's matches, concatenated in the order of `frames`. */
  function Collect<T>(frames: seq<Frame>, select: Frame -> seq<T>): seq<T> {
    if frames == [] then [] else select(frames[0]) + Collect(frames[1..], select)
  }

  lemma {:induction false} CollectAppend<T>(a: seq<Frame>, b: seq<Frame>, select: Frame -> seq<T>)
    ensures Collect(a + b, select) == Collect(a, select) + Collect(b, select)
    decreases |a|
  {
    if a == [] {
      assert a + b == b;
    } else {
      assert (a + b)[1..] == a[1..] + b;
      CollectAppend(a[1..], b, select);
    }
  }

  /** Every element the walk returns was selected in some frame of the page. */
  lemma {:induction false} CollectFrom<T>(frames: seq<Frame>, select: Frame -> seq<T>, x: T)
    requires x in Collect(frames, select)
    ensures exists f :: f in frames && x in select(f)
    decreases |frames|
  {
    if x !in select(frames[0]) {
      CollectFrom(frames[1..], select, x);
      var f :| f in frames[1..] && x in select(f);
      assert f in frames;
    }
  }

  /** findAllElements("form") on one frame. */
  function FormsOf(f: Frame): seq<Form> {
    f.forms
  }

  /** findAllElements("input") on one frame. */
  function InputsOf(f: Frame): seq<InputElement> {
    f.inputs
  }

  /** All `<form>` elements of the page. */
  function AllForms(main: Frame): seq<Form> {
    Collect(FrameOrder(main), FormsOf)
  }

  /** All `<input>` elements of the page. */
  function AllInputs(main: Frame): seq<InputElement> {
    Collect(FrameOrder(main), InputsOf)
  }

  /** getAllElementsFromPage: the main frame is queued; repeatedly the first
      queued frame is taken out, its matches appended and its child frames
      queued. `select` stands for findAllElements with the selector. */
  method GetAllElementsFromPage<T>(main: Frame, select: Frame -> seq<T>) returns (list: seq<T>)
    ensures list == Collect(FrameOrder(main), select)
  {
    list := [];
    var frames := [main];
    while frames != []
      invariant list + Collect(Bfs(frames), select) == Collect(Bfs([main]), select)
      decreases QueueSize(frames)
    {
      var frame := frames[0];
      QueueSizeAppend(frames[1..], frame.children);
      assert Bfs(frames) == [frame] + Bfs(frames[1..] + frame.children);
      CollectAppend([frame], Bfs(frames[1..] + frame.children), select);
      assert Collect([frame], select) == select(frame);
      frames := frames[1..];
      list := list + select(frame);
      frames := frames + frame.children;
    }
  }
}
