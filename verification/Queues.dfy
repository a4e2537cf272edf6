/** The two queues behind the protocol: linked requests and an array of lines. */
module Queues {
  import opened Protocol

  class Link {
    const request: Request
    var next: Link?

    constructor (request: Request)
      ensures this.request == request && next == null
    {
      this.request := request;
      next := null;
    }
  }

  /** The request queue of an environment, linked from head to tail. */
  class RequestQueue {
    var head: Link?
    var tail: Link?
    ghost var links: seq<Link>

    ghost predicate Valid()
      reads this, links
    {
      && (forall i, j :: 0 <= i < j < |links| ==> links[i] != links[j])
      && (forall i :: 0 < i < |links| ==> links[i - 1].next == links[i])
      && (if links == [] then head == null && tail == null
          else head == links[0] && tail == links[|links| - 1] && tail.next == null)
    }

    ghost function Contents(): (s: seq<Request>)
      reads this, links
    {
      seq(|links|, i requires 0 <= i < |links| reads this, links => links[i].request)
    }

    constructor ()
      ensures Valid() && Contents() == [] && links == []
    {
      head, tail, links := null, null, [];
    }

    /** env_submit_request, inside the lock. */
    method Enqueue(link: Link)
      requires Valid() && link !in links
      modifies this, links, link
      ensures Valid() && links == old(links) + [link]
      ensures Contents() == old(Contents()) + [link.request]
    {
      link.next := null;
      if tail != null { tail.next := link; } else { head := link; }
      tail := link;
      links := links + [link];
    }

    /** The head of the queue, taken inside the lock; null when the queue is empty. */
    method Dequeue() returns (link: Link?)
      requires Valid()
      modifies this
      ensures Valid()
      ensures link == null <==> old(links) == []
      ensures link == null ==> links == []
      ensures link != null ==> old(Contents()) == [link.request] + Contents() && link !in links
    {
      link := head;
      if link != null {
        head := link.next;
        if head == null { tail := null; }
        links := links[1..];
      }
    }
  }

  /** The lines read from standard input, in an array whose front is shifted out. */
  class LineQueue<Line(0)> {
    var lines: array<Line>
    var count: nat

    ghost predicate Valid()
      reads this
    {
      count <= lines.Length && lines.Length >= 16
    }

    ghost function Contents(): (s: seq<Line>)
      requires Valid()
      reads this, lines
    {
      lines[..count]
    }

    constructor ()
      ensures Valid() && fresh(lines) && Contents() == []
    {
      lines := new Line[16];
      count := 0;
    }

    method Push(line: Line)
      requires Valid()
      modifies this, lines
      ensures Valid() && (lines == old(lines) || fresh(lines))
      ensures Contents() == old(Contents()) + [line]
    {
      if count >= lines.Length {
        var more := new Line[2 * lines.Length];
        forall i | 0 <= i < count { more[i] := lines[i]; }
        assert more[..count] == lines[..count];
        lines := more;
      }
      lines[count] := line;
      count := count + 1;
    }

    /** The first line, with the others moved down by one. */
    method Pop() returns (found: bool, line: Line)
      requires Valid()
      modifies this, lines
      ensures Valid() && lines == old(lines)
      ensures found <==> old(Contents()) != []
      ensures if found then old(Contents()) == [line] + Contents() else Contents() == []
    {
      found := count > 0;
      line := lines[0];
      if found {
        var a, n := lines, count - 1;
        ghost var was := a[..];
        for i := 0 to n
          modifies a
          invariant forall j :: 0 <= j < i ==> a[j] == was[j + 1]
          invariant forall j :: i <= j < a.Length ==> a[j] == was[j]
        {
          a[i] := a[i + 1];
        }
        count := n;
        assert was[..n + 1] == [line] + a[..n];
      }
    }
  }

  // ----- the queues carry out the steps of the protocol -----

  /** PushLine puts the next line of standard input into the array. */
  method PushLineOn(q: LineQueue<Request>, ghost v: Server, r: Request)
    requires q.Valid() && TableKnown(v) && ServerCan(v, PushLine) && q.Contents() == v.lines && r == v.stdin[0]
    modifies q, q.lines
    ensures q.Valid() && q.Contents() == ServerApply(v, PushLine).lines
  {
    q.Push(r);
  }

  method Append(l: RequestQueue, r: Request)
    requires l.Valid()
    modifies l, l.links
    ensures l.Valid() && l.Contents() == old(l.Contents()) + [r]
  {
    var link := new Link(r);
    l.Enqueue(link);
  }

  lemma FirstLine<T>(was: seq<T>, lines: seq<T>, r: T, rest: seq<T>)
    requires was == lines && was == [r] + rest
    ensures r == lines[0] && rest == lines[1..]
  {
  }

  lemma SubmitEffect(v: Server, k: nat)
    requires TableKnown(v) && ServerCan(v, Submit(k))
    ensures ServerApply(v, Submit(k)).lines == v.lines[1..]
    ensures ServerApply(v, Submit(k)).envs[k].queue == v.envs[k].queue + [v.lines[0]]
  {
  }

  /** Submit takes the first line out of the array and appends it to the linked queue of its environment. */
  method SubmitOn(q: LineQueue<Request>, l: RequestQueue, ghost v: Server, k: nat)
    requires q.Valid() && l.Valid() && TableKnown(v) && ServerCan(v, Submit(k))
    requires q.Contents() == v.lines && l.Contents() == v.envs[k].queue
    modifies q, q.lines, l, l.links
    ensures q.Valid() && l.Valid()
    ensures q.Contents() == ServerApply(v, Submit(k)).lines && l.Contents() == ServerApply(v, Submit(k)).envs[k].queue
  {
    SubmitEffect(v, k);
    hide ServerCan, ServerApply, TableKnown;
    ghost var was := q.Contents();
    var found, r := q.Pop();
    FirstLine(was, v.lines, r, q.Contents());
    Append(l, r);
  }

  /** A fetching thread takes the head of its linked queue, and goes on to its jobs exactly when there is none. */
  method FetchOn(l: RequestQueue, ghost env: Env) returns (link: Link?)
    requires l.Valid() && env.phase.Fetching? && l.Contents() == env.queue
    modifies l
    ensures l.Valid() && l.Contents() == Move(env).queue
    ensures Move(env).phase == if link == null then RunningJobs else Handling(link.request)
  {
    link := l.Dequeue();
  }
}
