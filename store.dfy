/** The web application's in-memory session store and its four request
    handlers: upload a deck, show the next pair, submit a choice, show the
    result. Each handler's effect on a stored record is the one defined in
    module Tournament; this module adds the store itself, the lookup by
    session token and the loop that names the page images. */
module App {
  import opened PyList
  import opened Tournament

  /** What upload and choose send back when they do not raise: the page-count
      message, or a redirect to the pick page of a session. */
  datatype Reply = PageCountRejected | RedirectToPick(token: string)

  /** The image paths of an upload, built one page at a time as the upload
      loop does: one entry per page, page i's entry naming image i of the
      session's folder. */
  method BuildSlidePaths(token: string, pageCount: nat) returns (paths: seq<string>)
    ensures |paths| == pageCount
    ensures forall i :: 0 <= i < pageCount ==> paths[i] == SlidePath(token, i)
    ensures paths == SlidePaths(token, pageCount)
  {
    paths := [];
    var i := 0;
    while i < pageCount
      invariant 0 <= i <= pageCount
      invariant |paths| == i
      invariant forall k :: 0 <= k < i ==> paths[k] == SlidePath(token, k)
    {
      paths := paths + [SlidePath(token, i)];
      i := i + 1;
    }
  }

  /** A record as it may sit in the store under `token`: well-formed, made
      from an accepted upload, and holding the image paths of that token's
      folder in page order. */
  ghost predicate StoredUnder(token: string, s: Session) {
    && WellFormed(s)
    && PageCountAccepted(|s.slideImages|)
    && s.slideImages == SlidePaths(token, |s.slideImages|)
  }

  /** The pages served for a stored record only ever show images from the
      folder of that record's own token. */
  lemma StoredViewsUseOwnImages(token: string, s: Session)
    requires StoredUnder(token, s)
    ensures PickView(s).Ok? && PickView(s).value.Compare? ==>
              && PickView(s).value.imageA == SlidePath(token, PickView(s).value.a)
              && PickView(s).value.imageB == SlidePath(token, PickView(s).value.b)
    ensures ResultView(s).Ok? ==> ResultView(s).value.image == SlidePath(token, ResultView(s).value.slide)
  {
  }

  /** The module-level `sessions` dictionary, keyed by session token. */
  class SessionStore {
    var sessions: map<string, Session>

    ghost predicate Valid()
      reads this
    {
      forall token :: token in sessions ==> StoredUnder(token, sessions[token])
    }

    constructor ()
      ensures Valid()
      ensures sessions == map[]
    {
      sessions := map[];
    }

    /** POST /upload. `token` is the fresh uuid of the request, `pageCount`
        the number of pages the PDF rendered to, `draws` the randomness of
        the shuffle. A deck outside 2..20 pages is refused and nothing is
        stored; otherwise the token is bound to a new record (replacing any
        record it named before) and the client is sent to the pick page. */
    method UploadPdf(token: string, pageCount: nat, draws: seq<nat>) returns (reply: Reply)
      requires Valid()
      modifies this
      ensures Valid()
      ensures !PageCountAccepted(pageCount) ==> reply == PageCountRejected && sessions == old(sessions)
      ensures PageCountAccepted(pageCount) ==>
                && reply == RedirectToPick(token)
                && sessions == old(sessions)[token := NewSession(token, pageCount, draws)]
    {
      var paths := BuildSlidePaths(token, pageCount);
      if |paths| < MinPages || |paths| > MaxPages {
        return PageCountRejected;
      }
      var ids := Range(|paths|);
      var slides := Shuffled(ids, draws);
      var record := Session(slides, paths);
      assert record == NewSession(token, pageCount, draws);
      sessions := sessions[token := record];
      reply := RedirectToPick(token);
    }

    /** GET /pick/{token}: KeyError for an unknown token, otherwise the pick
        page of the stored record. */
    method Pick(token: string) returns (r: Response<PickPage>)
      requires Valid()
      ensures token !in sessions ==> r == Raised(KeyError)
      ensures token in sessions ==> r == PickView(sessions[token])
    {
      if token !in sessions {
        return Raised(KeyError);
      }
      r := PickView(sessions[token]);
    }

    /** POST /choose: KeyError for an unknown token, ValueError when the
        submitted value is not in play; in both cases the store is left as it
        was. Otherwise the value leaves play, the rest is reshuffled, and the
        client is sent back to the pick page. */
    method Choose(token: string, winner: int, draws: seq<nat>) returns (r: Response<Reply>)
      requires Valid()
      modifies this
      ensures Valid()
      ensures token !in old(sessions) ==> r == Raised(KeyError) && sessions == old(sessions)
      ensures token in old(sessions) && winner !in old(sessions)[token].slides ==>
                r == Raised(ValueError) && sessions == old(sessions)
      ensures token in old(sessions) && winner in old(sessions)[token].slides ==>
                && r == Ok(RedirectToPick(token))
                && sessions == old(sessions)[token := ChooseStep(old(sessions)[token], winner, draws).value]
    {
      if token !in sessions {
        return Raised(KeyError);
      }
      var record := sessions[token];
      var step := ChooseStep(record, winner, draws);
      if step.Raised? {
        return Raised(step.error);
      }
      ChooseKeepsWellFormed(record, winner, draws);
      sessions := sessions[token := step.value];
      r := Ok(RedirectToPick(token));
    }

    /** GET /result/{token}: KeyError for an unknown token, otherwise the
        result page of the stored record. */
    method Result(token: string) returns (r: Response<ResultPage>)
      requires Valid()
      ensures token !in sessions ==> r == Raised(KeyError)
      ensures token in sessions ==> r == ResultView(sessions[token])
    {
      if token !in sessions {
        return Raised(KeyError);
      }
      r := ResultView(sessions[token]);
    }
  }
}
