/** The `Home` component: its six pieces of state and the handlers that step
    them. Network calls are not made here: each handler returns the request
    it would send, takes how that request ended as a parameter, and takes
    the response of the `fetchNames` refresh that follows as a `Fetch`. */
module Board {
  import opened Records
  import opened Ordering
  import opened Grouping
  import opened Text

  /** The requests the page sends to the `/names` endpoint. */
  datatype Request =
    | Create(firstName: string, liked: bool)  // POST /names
    | Rename(id: string, firstName: string)   // PUT /names/{id} with {firstName}
    | SetLiked(id: string, liked: bool)       // PUT /names/{id} with {liked}
    | Delete(id: string)                      // DELETE /names/{id}

  /** How a `GET /names` ended: the parsed list, or a non-ok status or a
      thrown error (both end in the `catch` that only logs). */
  datatype Fetch = Listed(data: seq<Name>) | Failed

  /** What a handler does to the window: an `alert`, or a scroll. */
  datatype Effect = Notice(message: string) | ScrollToGroup(letter: char) | ScrollToName(id: string)

  /** The values of the component's `useState` hooks. */
  datatype PageState = PageState(
    names: seq<Name>,
    newName: string,
    editId: Option<string>,
    editName: string,
    highlightedId: Option<string>,
    showScrollTop: bool)

  const NoNamesNotice: string := "There are no names available."

  function NoLetterNotice(letter: char): string {
    "There are no names with the letter " + [letter]
  }

  /** The scroll offset past which the scroll-to-top button shows. */
  const ScrollThreshold: real := 200.0

  /** `${editId}` in a request path: a `null` id prints as "null". */
  function PathId(id: Option<string>): string {
    match id
    case Some(s) => s
    case None => "null"
  }

  /** The `find` in `handleEditName`: the first record with that id. */
  function FindById(s: seq<Name>, id: string): (r: Option<Name>)
    ensures r.None? <==> forall i :: 0 <= i < |s| ==> s[i].id != id
    ensures r.Some? ==> exists i :: 0 <= i < |s| && s[i] == r.value && s[i].id == id
                                    && forall j :: 0 <= j < i ==> s[j].id != id
  {
    if s == [] then None
    else if s[0].id == id then Some(s[0])
    else
      var r := FindById(s[1..], id);
      if r.Some? then
        var i :| 0 <= i < |s[1..]| && s[1..][i] == r.value && s[1..][i].id == id
                 && forall j :: 0 <= j < i ==> s[1..][j].id != id;
        assert s[i + 1] == r.value;
        assert forall j :: 0 <= j < i + 1 ==> s[j].id != id by {
          forall j | 0 <= j < i + 1
            ensures s[j].id != id
          {
            if j > 0 {
              assert s[j] == s[1..][j - 1];
            }
          }
        }
        r
      else
        assert forall i :: 0 <= i < |s| ==> s[i].id != id by {
          forall i | 0 <= i < |s|
            ensures s[i].id != id
          {
            if i > 0 {
              assert s[i] == s[1..][i - 1];
            }
          }
        }
        r
  }

  /** What `fetchNames` leaves in `names`: the response sorted by first name
      if it arrived, otherwise the list it had. */
  function Resync(le: (string, string) -> bool, current: seq<Name>, response: Fetch): (r: seq<Name>)
    ensures response.Listed? ==> multiset(r) == multiset(response.data)
    ensures response.Failed? ==> r == current
  {
    match response
    case Listed(data) => StableSortPermutes(le, data); StableSort(le, data)
    case Failed => current
  }

  /** A refresh either replaces the list wholesale by a sorted, stable
      permutation of the response, or leaves it exactly as it was. */
  lemma ResyncReplacesOrKeeps(le: (string, string) -> bool, current: seq<Name>, response: Fetch)
    requires TotalPreorder(le)
    ensures response.Failed? ==> Resync(le, current, response) == current
    ensures response.Listed? ==>
              && multiset(Resync(le, current, response)) == multiset(response.data)
              && Sorted(le, Resync(le, current, response))
              && forall key :: Ties(le, Resync(le, current, response), key) == Ties(le, response.data, key)
  {
    if response.Listed? {
      StableSortPermutes(le, response.data);
      StableSortSorted(le, response.data);
      forall key
        ensures Ties(le, Resync(le, current, response), key) == Ties(le, response.data, key)
      {
        StableSortKeepsTies(le, response.data, key);
      }
    }
  }

  class NameBoard {
    /** The locale comparison of first names: `le(a, b)` when `a` sorts no later than `b`. */
    const le: (string, string) -> bool

    var names: seq<Name>
    var newName: string
    var editId: Option<string>
    var editName: string
    var highlightedId: Option<string>
    var showScrollTop: bool

    ghost function State(): PageState
      reads this
    {
      PageState(names, newName, editId, editName, highlightedId, showScrollTop)
    }

    /** The list only ever changes by a refresh, so it stays sorted. */
    ghost predicate Valid()
      reads this
    {
      TotalPreorder(le) && Sorted(le, names)
    }

    /** Because the list stays sorted, every letter's group on the page is
        listed in first-name order. */
    lemma GroupsShownSorted()
      requires Valid() && AllNamed(names)
      ensures forall letter | letter in Group(names) :: Sorted(le, Group(names)[letter])
    {
      GroupsOfSortedAreSorted(le, names);
    }

    /** The hooks' initial values. */
    constructor (le: (string, string) -> bool)
      requires TotalPreorder(le)
      ensures Valid() && this.le == le
      ensures State() == PageState([], "", None, "", None, false)
    {
      this.le := le;
      names, newName, editId, editName := [], "", None, "";
      highlightedId, showScrollTop := None, false;
    }

    /** `fetchNames`: sort the fetched array in place, then `setNames`;
        on any failure, only log. */
    method Refresh(response: Fetch)
      requires Valid()
      modifies this
      ensures Valid()
      ensures State() == old(State()).(names := Resync(le, old(names), response))
    {
      match response {
        case Failed =>
        case Listed(data) =>
          var a := new Name[|data|](i requires 0 <= i < |data| => data[i]);
          assert a[..] == data;
          SortInPlace(le, a);
          StableSortSorted(le, data);
          names := a[..];
      }
    }

    /** `handleAddName`: blank input sends nothing; otherwise POST the text as
        typed, and only on an ok response clear the input and refresh. */
    method AddName(created: bool, response: Fetch) returns (sent: Option<Request>)
      requires Valid()
      modifies this
      ensures Valid()
      ensures sent == if IsBlank(old(newName)) then None else Some(Create(old(newName), false))
      ensures State() == if sent.Some? && created
                         then old(State()).(newName := "", names := Resync(le, old(names), response))
                         else old(State())
    {
      if IsBlank(newName) {
        return None;
      }
      sent := Some(Create(newName, false));
      if created {
        newName := "";
        Refresh(response);
      }
    }

    /** The input's `onChange`. */
    method TypeNewName(text: string)
      modifies this
      ensures State() == old(State()).(newName := text)
    {
      newName := text;
    }

    /** `handleEditName`: open the editor on the first record with this id,
        seeded with its first name; an unknown id changes nothing. */
    method StartEdit(id: string)
      modifies this
      ensures State() == match FindById(old(names), id)
                         case None => old(State())
                         case Some(n) => old(State()).(editId := Some(id), editName := n.firstName)
    {
      var found := FindById(names, id);
      if found.Some? {
        editId := Some(id);
        editName := found.value.firstName;
      }
    }

    /** The editor's `onChange`. */
    method TypeEditName(text: string)
      modifies this
      ensures State() == old(State()).(editName := text)
    {
      editName := text;
    }

    /** The Cancel button: closes the editor, keeping the text typed so far. */
    method CancelEdit()
      modifies this
      ensures State() == old(State()).(editId := None)
    {
      editId := None;
    }

    /** `handleUpdateName`: PUT the edited text, unchecked; only an ok
        response closes the editor and refreshes. */
    method SaveEdit(saved: bool, response: Fetch) returns (sent: Request)
      requires Valid()
      modifies this
      ensures Valid()
      ensures sent == Rename(PathId(old(editId)), old(editName))
      ensures State() == if saved
                         then old(State()).(editId := None, editName := "",
                                            names := Resync(le, old(names), response))
                         else old(State())
    {
      sent := Rename(PathId(editId), editName);
      if saved {
        editId := None;
        editName := "";
        Refresh(response);
      }
    }

    /** `handleToggleLike`: PUT the negated flag; the refresh follows whenever
        the request got an answer at all, whatever its status. */
    method ToggleLike(id: string, currentLiked: bool, answered: bool, response: Fetch)
      returns (sent: Request)
      requires Valid()
      modifies this
      ensures Valid()
      ensures sent == SetLiked(id, !currentLiked)
      ensures State() == if answered
                         then old(State()).(names := Resync(le, old(names), response))
                         else old(State())
    {
      sent := SetLiked(id, !currentLiked);
      if answered {
        Refresh(response);
      }
    }

    /** `handleDeleteName`: DELETE by id; refresh only on an ok response. */
    method DeleteName(id: string, removed: bool, response: Fetch) returns (sent: Request)
      requires Valid()
      modifies this
      ensures Valid()
      ensures sent == Delete(id)
      ensures State() == if removed
                         then old(State()).(names := Resync(le, old(names), response))
                         else old(State())
    {
      sent := Delete(id);
      if removed {
        Refresh(response);
      }
    }

    /** `handleRandomClick`, with the randomly drawn position given as
        `index`: highlight and scroll to that record, or give the
        notice on an empty list. */
    method RandomPick(index: nat) returns (effect: Effect)
      requires names != [] ==> index < |names|
      modifies this
      ensures old(names) == [] ==> effect == Notice(NoNamesNotice) && State() == old(State())
      ensures old(names) != [] ==>
                && effect == ScrollToName(old(names)[index].id)
                && State() == old(State()).(highlightedId := Some(old(names)[index].id))
    {
      if names == [] {
        return Notice(NoNamesNotice);
      }
      var picked := names[index];
      highlightedId := Some(picked.id);
      effect := ScrollToName(picked.id);
    }

    /** `handleAlphabetClick`: a group's heading is rendered, and so can be
        scrolled to, exactly when some record is filed under the letter. */
    method AlphabetClick(letter: char) returns (effect: Effect)
      requires AllNamed(names)
      ensures (exists n | n in names :: Letter(n) == letter) ==> effect == ScrollToGroup(letter)
      ensures (forall n | n in names :: Letter(n) != letter) ==> effect == Notice(NoLetterNotice(letter))
    {
      var groups := GroupNames(names);
      GroupIsPartition(names);
      if letter in groups {
        effect := ScrollToGroup(letter);
      } else {
        effect := Notice(NoLetterNotice(letter));
      }
    }

    /** The window's scroll listener. */
    method OnScroll(scrollY: real)
      modifies this
      ensures State() == old(State()).(showScrollTop := scrollY > ScrollThreshold)
    {
      if scrollY > ScrollThreshold {
        showScrollTop := true;
      } else {
        showScrollTop := false;
      }
    }
  }
}
