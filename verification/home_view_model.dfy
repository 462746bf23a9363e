/**
  The home screen's paging: a page counter kept by the view model, a screen
  state, and the four actions that (re)load a page. Each load is one
  serialised job: the token check, the state shown before fetching, each
  page the repository's flow emits, and possibly a failure.
 */
module HomeViewModel {
  import opened Wrappers

  datatype HomeCategory = Popular | LatestUpdated | New

  /** A repository shown on the list; only its identity matters to paging. */
  datatype RepoSummary = RepoSummary(id: int)

  /** One page as the repository emits it. */
  datatype PaginatedRepos = PaginatedRepos(repos: seq<RepoSummary>, hasMore: bool)

  datatype HomeState = HomeState(
    repos: seq<RepoSummary>,
    isLoading: bool,
    isLoadingMore: bool,
    errorMessage: Option<string>,
    needsAuth: bool,
    currentCategory: HomeCategory,
    hasMorePages: bool
  )

  /** The view model: the screen state and the page counter it keeps beside it. */
  datatype Vm = Vm(state: HomeState, page: int)

  datatype HomeAction = Refresh | Retry | LoadMore | SwitchCategory(category: HomeCategory)

  /**
    How the job went: there was no token, or the repository's flow emitted
    `pages` and then completed (`failure == None`) or threw an exception
    with the given (nullable) message.
   */
  datatype Answer = NoToken | Answered(pages: seq<PaginatedRepos>, failure: Option<Option<string>>)

  /** The page the repository was asked for. */
  datatype Fetch = Fetch(category: HomeCategory, page: int)

  /**
    What a load did: the view model after it, some of the states it
    published, in order, and the fetch made. The states kept are the one
    shown before fetching, the one after the last emitted page, and the
    failure's. The states after the earlier pages are not kept.
   */
  datatype Load = Load(vm: Vm, states: seq<HomeState>, fetch: Option<Fetch>)

  const FailedToLoad: string := "Failed to load data"

  /** All the repositories of `pages`, in order. */
  function AllRepos(pages: seq<PaginatedRepos>): seq<RepoSummary>
    decreases |pages|
  {
    if |pages| == 0 then [] else AllRepos(pages[..|pages| - 1]) + pages[|pages| - 1].repos
  }

  /**
    The state after the flow's emissions: each initial-load emission replaces
    the list, each load-more emission appends to it.
   */
  function Collect(s: HomeState, isInitial: bool, pages: seq<PaginatedRepos>): (r: HomeState)
    ensures |pages| == 0 ==> r == s
    ensures |pages| > 0 ==> && !r.isLoading && !r.isLoadingMore && r.errorMessage == None
                            && r.hasMorePages == pages[|pages| - 1].hasMore
    ensures |pages| > 0 && isInitial ==> r.repos == pages[|pages| - 1].repos
    ensures !isInitial ==> r.repos == s.repos + AllRepos(pages)
    ensures r.needsAuth == s.needsAuth && r.currentCategory == s.currentCategory
    decreases |pages|
  {
    if |pages| == 0 then s
    else
      var before := Collect(s, isInitial, pages[..|pages| - 1]);
      var page := pages[|pages| - 1];
      before.(repos := if isInitial then page.repos else before.repos + page.repos,
              isLoading := false,
              isLoadingMore := false,
              hasMorePages := page.hasMore,
              errorMessage := None)
  }

  /**
    `loadRepos(isInitial, category)`. An initial load restarts at page 1;
    without a token only the flags change; otherwise the list is cleared
    (initial) or kept (more), the requested or current category is fetched at
    the current page, the emitted pages are applied, and a failure clears the
    flags and shows its message.
   */
  function LoadRepos(vm: Vm, isInitial: bool, category: Option<HomeCategory>, answer: Answer): (r: Load)
    ensures isInitial ==> r.vm.page == 1
    ensures !isInitial ==> r.vm.page == vm.page
    ensures answer.NoToken? ==>
              && r.fetch == None
              && r.vm.state == vm.state.(needsAuth := true, isLoading := false, isLoadingMore := false)
    ensures answer.Answered? ==>
              && r.fetch == Some(Fetch(category.GetOr(vm.state.currentCategory), r.vm.page))
              && |r.states| >= 1
              && r.states[0].isLoading == isInitial && r.states[0].isLoadingMore == !isInitial
              && r.states[0].errorMessage == None && !r.states[0].needsAuth
              && r.states[0].currentCategory == category.GetOr(vm.state.currentCategory)
              && r.states[0].repos == (if isInitial then [] else vm.state.repos)
              && r.states[0].hasMorePages == vm.state.hasMorePages
    ensures answer.Answered? && answer.failure.Some? ==>
              && !r.vm.state.isLoading && !r.vm.state.isLoadingMore
              && r.vm.state.errorMessage == Some(answer.failure.value.GetOr(FailedToLoad))
    ensures answer.Answered? && answer.failure.None? && |answer.pages| > 0 ==>
              && !r.vm.state.isLoading && !r.vm.state.isLoadingMore && r.vm.state.errorMessage == None
              && r.vm.state.hasMorePages == answer.pages[|answer.pages| - 1].hasMore
    ensures answer.Answered? && !isInitial ==> r.vm.state.repos == vm.state.repos + AllRepos(answer.pages)
    ensures answer.Answered? && isInitial && |answer.pages| > 0 ==>
              r.vm.state.repos == answer.pages[|answer.pages| - 1].repos
    ensures |r.states| >= 1 && r.vm.state == r.states[|r.states| - 1]
  {
    var page := if isInitial then 1 else vm.page;
    var target := category.GetOr(vm.state.currentCategory);
    match answer
    case NoToken =>
      var s := vm.state.(needsAuth := true, isLoading := false, isLoadingMore := false);
      Load(Vm(s, page), [s], None)
    case Answered(pages, failure) =>
      var shown := vm.state.(isLoading := isInitial,
                             isLoadingMore := !isInitial,
                             errorMessage := None,
                             needsAuth := false,
                             currentCategory := target,
                             repos := if isInitial then [] else vm.state.repos);
      var collected := Collect(shown, isInitial, pages);
      var states := [shown] + (if |pages| > 0 then [collected] else []);
      match failure
      case None => Load(Vm(collected, page), states, Some(Fetch(target, page)))
      case Some(message) =>
        var failed := collected.(isLoading := false, isLoadingMore := false,
                                 errorMessage := Some(message.GetOr(FailedToLoad)));
        Load(Vm(failed, page), states + [failed], Some(Fetch(target, page)))
  }

  /** Whether `LoadMore` acts: no load-more running, and more pages to get. */
  predicate CanLoadMore(s: HomeState) {
    !s.isLoadingMore && s.hasMorePages
  }

  /** `onAction`, with the job each action starts run to its end against `answer`. */
  function OnAction(vm: Vm, action: HomeAction, answer: Answer): (r: Load)
    // only a blocked LoadMore leaves everything as it was
    ensures action.LoadMore? && !CanLoadMore(vm.state) ==> r == Load(vm, [], None)
    // an acting LoadMore moves on exactly one page and asks for it
    ensures action.LoadMore? && CanLoadMore(vm.state) ==>
              && r.vm.page == vm.page + 1
              && (answer.Answered? ==> r.fetch == Some(Fetch(vm.state.currentCategory, vm.page + 1)))
    // the other actions start again from page 1
    ensures !action.LoadMore? ==> r.vm.page == 1 && (answer.Answered? ==> r.fetch.Some? && r.fetch.value.page == 1)
    ensures action.SwitchCategory? && answer.Answered? ==> r.fetch.Some? && r.fetch.value.category == action.category
    ensures (action.Refresh? || action.Retry?) && answer.Answered? ==>
              r.fetch.Some? && r.fetch.value.category == vm.state.currentCategory
  {
    match action
    case Refresh => LoadRepos(vm.(page := 1), true, None, answer)
    case Retry => LoadRepos(vm, true, None, answer)
    case LoadMore =>
      if CanLoadMore(vm.state) then LoadRepos(vm.(page := vm.page + 1), false, None, answer)
      else Load(vm, [], None)
    case SwitchCategory(category) => LoadRepos(vm.(page := 1), true, Some(category), answer)
  }

  /** A failed load keeps what the list showed, and does not take the page counter back. */
  lemma FailureKeepsListAndPage(vm: Vm, message: Option<string>)
    requires CanLoadMore(vm.state)
    ensures var r := OnAction(vm, LoadMore, Answered([], Some(message)));
            && r.vm.state.repos == vm.state.repos
            && r.vm.page == vm.page + 1
            && r.vm.state.errorMessage == Some(message.GetOr(FailedToLoad))
  {
  }

  /** Loading more never drops a repository already shown: the old list is a prefix of the new. */
  lemma LoadMoreKeepsShown(vm: Vm, answer: Answer)
    ensures var r := OnAction(vm, LoadMore, answer);
            |vm.state.repos| <= |r.vm.state.repos| && r.vm.state.repos[..|vm.state.repos|] == vm.state.repos
  {
    var r := OnAction(vm, LoadMore, answer);
    if CanLoadMore(vm.state) && answer.Answered? {
      assert r.vm.state.repos == vm.state.repos + AllRepos(answer.pages);
    }
  }

  /**
    A flow that completes without emitting leaves the load-more flag set, so
    every later `LoadMore` is blocked until another action loads page 1.
   */
  lemma SilentLoadMoreBlocksLoadMore(vm: Vm, next: Answer)
    requires CanLoadMore(vm.state)
    ensures var r := OnAction(vm, LoadMore, Answered([], None));
            r.vm.state.isLoadingMore && OnAction(r.vm, LoadMore, next) == Load(r.vm, [], None)
  {
  }

  /** Pages are asked for in order: `n` acting `LoadMore`s after a refresh ask for pages 2 to n + 1. */
  lemma {:induction false} LoadMoreCounts(vm: Vm, answers: seq<Answer>)
    requires forall i :: 0 <= i < |answers| ==> answers[i].Answered? && answers[i].failure.None?
                                                && |answers[i].pages| > 0
    requires forall i :: 0 <= i < |answers| ==> answers[i].pages[|answers[i].pages| - 1].hasMore
    requires CanLoadMore(vm.state)
    ensures LoadMoreRun(vm, answers).page == vm.page + |answers|
    ensures CanLoadMore(LoadMoreRun(vm, answers).state)
    decreases |answers|
  {
    if |answers| > 0 {
      var next := OnAction(vm, LoadMore, answers[0]).vm;
      LoadMoreCounts(next, answers[1..]);
    }
  }

  /** The view model after one `LoadMore` per answer. */
  function LoadMoreRun(vm: Vm, answers: seq<Answer>): Vm
    decreases |answers|
  {
    if |answers| == 0 then vm else LoadMoreRun(OnAction(vm, LoadMore, answers[0]).vm, answers[1..])
  }
}
