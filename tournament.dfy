/** One slide tournament, as a value: the record the store keeps per session
    token, the page-count rule applied when a session is created, and the
    effect and views of the three requests that act on a session (show the
    next pair, submit a choice, show the result). */
module Tournament {
  import opened Decimal
  import opened PyList

  /** Page counts accepted on upload, inclusive. */
  const MinPages: nat := 2
  const MaxPages: nat := 20

  /** The Python exceptions a request can raise. */
  datatype PyError = KeyError | IndexError | ValueError

  /** What a request handler does: it returns a page, or it raises. */
  datatype Response<T> = Ok(value: T) | Raised(error: PyError)

  /** The record stored per session: the slide indices still in play, in their
      current (shuffled) order, and the image path of every page. */
  datatype Session = Session(slides: seq<nat>, slideImages: seq<string>)

  /** The page for the next comparison: a redirect to the result, or the two
      slides offered, each with the number shown on its button and its image. */
  datatype PickPage =
    | RedirectToResult
    | Compare(a: nat, b: nat, numberA: int, numberB: int, imageA: string, imageB: string)

  /** The page for the final slide: its index, the number shown to the user
      and its image. */
  datatype ResultPage = ResultPage(slide: nat, number: int, image: string)

  /** One submitted choice: the value posted as `winner` and the random draws
      of the shuffle that follows it. */
  datatype Round = Round(winner: int, draws: seq<nat>)

  predicate PageCountAccepted(n: nat) {
    MinPages <= n <= MaxPages
  }

  /** The URL path of the image of page i of a session. */
  function SlidePath(token: string, i: nat): string {
    "/static/slides/" + token + "/slide_" + DecimalString(i) + ".png"
  }

  /** Every page of a session has its own image path. */
  lemma SlidePathInjective(token: string, i: nat, j: nat)
    ensures SlidePath(token, i) == SlidePath(token, j) ==> i == j
  {
    var prefix := "/static/slides/" + token + "/slide_";
    var p, q := SlidePath(token, i), SlidePath(token, j);
    if p == q {
      var di, dj := DecimalString(i), DecimalString(j);
      assert p == prefix + di + ".png";
      assert q == prefix + dj + ".png";
      assert |di| == |dj|;
      assert di == p[|prefix|..|prefix| + |di|];
      assert dj == q[|prefix|..|prefix| + |dj|];
      DecimalStringInjective(i, j);
    }
  }

  /** The image paths of an n-page deck, in page order. */
  function SlidePaths(token: string, n: nat): (r: seq<string>)
    ensures |r| == n
    ensures forall i :: 0 <= i < n ==> r[i] == SlidePath(token, i)
  {
    if n == 0 then [] else SlidePaths(token, n - 1) + [SlidePath(token, n - 1)]
  }

  /** `list(range(n))`. */
  function Range(n: nat): (r: seq<nat>)
    ensures |r| == n
    ensures forall i :: 0 <= i < n ==> r[i] == i
    ensures forall v :: v in r <==> 0 <= v < n
  {
    if n == 0 then []
    else
      var r := Range(n - 1) + [n - 1];
      assert forall v :: 0 <= v < n ==> r[v] == v;
      r
  }

  /** The invariant of a stored session: no slide is in play twice, and each
      one names a page that has an image. */
  ghost predicate WellFormed(s: Session) {
    && NoDuplicates(s.slides)
    && forall k :: 0 <= k < |s.slides| ==> s.slides[k] < |s.slideImages|
  }

  /** Reordering the slides of a well-formed record keeps it well-formed and
      keeps the same slides in play. */
  lemma ReorderedWellFormed(s: Session, slides: seq<nat>)
    requires WellFormed(s)
    requires multiset(slides) == multiset(s.slides)
    ensures WellFormed(Session(slides, s.slideImages))
    ensures forall v :: v in slides <==> v in s.slides
  {
    PermutationKeepsNoDuplicates(s.slides, slides);
    forall v
      ensures v in slides <==> v in s.slides
    {
      assert v in slides <==> v in multiset(slides);
      assert v in s.slides <==> v in multiset(s.slides);
    }
    forall k | 0 <= k < |slides|
      ensures slides[k] < |s.slideImages|
    {
      assert slides[k] in slides;
      var j :| 0 <= j < |s.slides| && s.slides[j] == slides[k];
    }
  }

  /** Removing a slide in play from a well-formed record keeps it well-formed. */
  lemma RemovedWellFormed(s: Session, winner: nat)
    requires WellFormed(s)
    requires winner in s.slides
    ensures WellFormed(Session(RemoveFirst(s.slides, winner), s.slideImages))
    ensures forall v :: v in RemoveFirst(s.slides, winner) <==> v in s.slides && v != winner
  {
    var r := RemoveFirst(s.slides, winner);
    RemoveFirstOfNoDuplicates(s.slides, winner);
    forall k | 0 <= k < |r|
      ensures r[k] < |s.slideImages|
    {
      assert r[k] in r;
      var j :| 0 <= j < |s.slides| && s.slides[j] == r[k];
    }
  }

  /** A record as an n-page upload under `token` leaves it: every page index
      exactly once, in some order, and page i's image path at position i. */
  ghost predicate UploadedDeck(s: Session, token: string, n: nat) {
    && WellFormed(s)
    && |s.slides| == n && |s.slideImages| == n
    && (forall v :: v in s.slides <==> 0 <= v < n)
    && (forall i :: 0 <= i < n ==> s.slideImages[i] == SlidePath(token, i))
  }

  /** The record an accepted n-page upload stores: `list(range(n))` shuffled,
      next to the image paths in page order. */
  function NewSession(token: string, n: nat, draws: seq<nat>): (r: Session)
    ensures UploadedDeck(r, token, n)
    ensures multiset(r.slides) == multiset(Range(n))
  {
    var ordered := Session(Range(n), SlidePaths(token, n));
    var slides := Shuffled(ordered.slides, draws);
    ReorderedWellFormed(ordered, slides);
    Session(slides, ordered.slideImages)
  }

  /** A choice: `slides.remove(winner)`, then `random.shuffle(slides)`. A value
      that is not in play (a negative one included) raises ValueError and
      leaves the record as it was. */
  function ChooseStep(s: Session, winner: int, draws: seq<nat>): (r: Response<Session>)
    ensures r.Ok? <==> winner in s.slides
    ensures r.Raised? ==> r.error == ValueError
    ensures r.Ok? ==> r.value.slideImages == s.slideImages
    ensures r.Ok? ==> |r.value.slides| == |s.slides| - 1
    ensures r.Ok? ==> multiset(r.value.slides) == multiset(s.slides) - multiset{winner as nat}
  {
    if winner !in s.slides then Raised(ValueError)
    else Ok(Session(Shuffled(RemoveFirst(s.slides, winner as nat), draws), s.slideImages))
  }

  /** A successful choice keeps the record well-formed and takes exactly the
      submitted slide out of play. */
  lemma ChooseKeepsWellFormed(s: Session, winner: int, draws: seq<nat>)
    requires WellFormed(s)
    requires winner in s.slides
    ensures ChooseStep(s, winner, draws).Ok?
    ensures WellFormed(ChooseStep(s, winner, draws).value)
    ensures forall v :: v in ChooseStep(s, winner, draws).value.slides <==> v in s.slides && v != winner
  {
    var removed := Session(RemoveFirst(s.slides, winner as nat), s.slideImages);
    RemovedWellFormed(s, winner as nat);
    ReorderedWellFormed(removed, Shuffled(removed.slides, draws));
  }

  /** The pick page: a redirect to the result exactly when one slide is left,
      IndexError when none is, and otherwise the first two slides in play,
      which are two different pages. */
  function PickView(s: Session): (r: Response<PickPage>)
    requires WellFormed(s)
    ensures r == Ok(RedirectToResult) <==> |s.slides| == 1
    ensures r.Raised? <==> |s.slides| == 0
    ensures r.Raised? ==> r.error == IndexError
    ensures r.Ok? && r.value.Compare? ==>
              && |s.slides| >= 2
              && r.value.a == s.slides[0] && r.value.b == s.slides[1]
              && r.value.a != r.value.b
              && r.value.numberA == r.value.a + 1 && r.value.numberB == r.value.b + 1
              && r.value.imageA == s.slideImages[r.value.a]
              && r.value.imageB == s.slideImages[r.value.b]
  {
    if |s.slides| == 1 then Ok(RedirectToResult)
    else if |s.slides| == 0 then Raised(IndexError)
    else
      var a, b := s.slides[0], s.slides[1];
      Ok(Compare(a, b, a + 1, b + 1, s.slideImages[a], s.slideImages[b]))
  }

  /** The result page: the first slide in play, shown with its 1-based number;
      IndexError when no slide is left. */
  function ResultView(s: Session): (r: Response<ResultPage>)
    requires WellFormed(s)
    ensures r.Raised? <==> |s.slides| == 0
    ensures r.Raised? ==> r.error == IndexError
    ensures r.Ok? ==>
              && r.value.slide in s.slides
              && r.value.slide < |s.slideImages|
              && r.value.number == r.value.slide + 1
              && r.value.image == s.slideImages[r.value.slide]
    ensures r.Ok? ==> r.value.slide == s.slides[0]
    ensures |s.slides| == 1 ==> r.Ok?
  {
    if |s.slides| == 0 then Raised(IndexError)
    else
      var winner := s.slides[0];
      Ok(ResultPage(winner, winner + 1, s.slideImages[winner]))
  }

  /** The values posted in a sequence of rounds. */
  function Winners(rounds: seq<Round>): (r: seq<int>)
    ensures |r| == |rounds|
    ensures forall i :: 0 <= i < |rounds| ==> r[i] == rounds[i].winner
  {
    if rounds == [] then [] else [rounds[0].winner] + Winners(rounds[1..])
  }

  /** The record after a sequence of choices; the first one that raises ends it. */
  function Play(s: Session, rounds: seq<Round>): Response<Session>
    decreases |rounds|
  {
    if rounds == [] then Ok(s)
    else
      match ChooseStep(s, rounds[0].winner, rounds[0].draws)
      case Raised(e) => Raised(e)
      case Ok(next) => Play(next, rounds[1..])
  }

  /** The slide whose button the user clicks is the one taken out of play:
      `winner` carries the clicked slide's index and `choose` removes exactly
      that value, while the slide not clicked stays in play. */
  lemma ClickedSlideIsEliminated(s: Session, clickFirst: bool, draws: seq<nat>)
    requires WellFormed(s)
    requires PickView(s).Ok? && PickView(s).value.Compare?
    ensures var page := PickView(s).value;
            var clicked := if clickFirst then page.a else page.b;
            var other := if clickFirst then page.b else page.a;
            var r := ChooseStep(s, clicked, draws);
            r.Ok? && clicked !in r.value.slides && other in r.value.slides
  {
    var page := PickView(s).value;
    var clicked := if clickFirst then page.a else page.b;
    assert s.slides[0] in s.slides && s.slides[1] in s.slides;
    ChooseKeepsWellFormed(s, clicked, draws);
  }

  /** Choices of distinct values that are all in play all succeed: each
      removes its value and nothing else, and the length drops by one per round. */
  lemma {:induction false} PlayRemovesWinners(s: Session, rounds: seq<Round>)
    requires WellFormed(s)
    requires NoDuplicates(Winners(rounds))
    requires forall i :: 0 <= i < |rounds| ==> rounds[i].winner in s.slides
    ensures Play(s, rounds).Ok?
    ensures WellFormed(Play(s, rounds).value)
    ensures Play(s, rounds).value.slideImages == s.slideImages
    ensures |Play(s, rounds).value.slides| == |s.slides| - |rounds|
    ensures forall v :: v in Play(s, rounds).value.slides <==> v in s.slides && v !in Winners(rounds)
    decreases |rounds|
  {
    if rounds != [] {
      var w := rounds[0].winner;
      assert w == Winners(rounds)[0];
      ChooseKeepsWellFormed(s, w, rounds[0].draws);
      var step := ChooseStep(s, w, rounds[0].draws);
      var next := step.value;
      var rest := rounds[1..];
      assert Winners(rounds) == [w] + Winners(rest);
      forall i, j | 0 <= i < j < |Winners(rest)|
        ensures Winners(rest)[i] != Winners(rest)[j]
      {
        assert Winners(rest)[i] == Winners(rounds)[i + 1];
        assert Winners(rest)[j] == Winners(rounds)[j + 1];
      }
      forall i | 0 <= i < |rest|
        ensures rest[i].winner in next.slides
      {
        assert rest[i] == rounds[i + 1];
        assert rest[i].winner == Winners(rounds)[i + 1] != Winners(rounds)[0];
      }
      PlayRemovesWinners(next, rest);
      assert Play(s, rounds) == Play(next, rest);
    }
  }

  /** The converse: a run in which no choice raised submitted distinct
      values, each of them in play at the start. */
  lemma {:induction false} PlayOkMeansValidChoices(s: Session, rounds: seq<Round>)
    requires WellFormed(s)
    requires Play(s, rounds).Ok?
    ensures NoDuplicates(Winners(rounds))
    ensures forall v :: v in Winners(rounds) ==> v in s.slides
    decreases |rounds|
  {
    if rounds != [] {
      var next := FirstRoundSucceeded(s, rounds);
      PlayOkMeansValidChoices(next, rounds[1..]);
      assert Winners(rounds) == [rounds[0].winner] + Winners(rounds[1..]);
      PrependChoice(s.slides, next.slides, rounds[0].winner, Winners(rounds[1..]));
    }
  }

  /** Distinct values in play after a first choice that was itself in play,
      and no longer is, make the whole list of choices distinct and in play. */
  lemma PrependChoice(before: seq<nat>, after: seq<nat>, w: int, ws: seq<int>)
    requires w in before
    requires forall v: int :: v in after ==> v in before && v != w
    requires NoDuplicates(ws)
    requires forall v :: v in ws ==> v in after
    ensures NoDuplicates([w] + ws)
    ensures forall v :: v in [w] + ws ==> v in before
  {
    var r := [w] + ws;
    forall i, j | 0 <= i < j < |r|
      ensures r[i] != r[j]
    {
      assert r[j] == ws[j - 1];
      assert ws[j - 1] in ws;
      if i > 0 {
        assert r[i] == ws[i - 1];
      }
    }
  }

  /** When a run does not raise, its first choice was of a value in play, and
      the run goes on from a well-formed record without that value. */
  lemma FirstRoundSucceeded(s: Session, rounds: seq<Round>) returns (next: Session)
    requires WellFormed(s)
    requires rounds != [] && Play(s, rounds).Ok?
    ensures rounds[0].winner in s.slides
    ensures WellFormed(next)
    ensures Play(next, rounds[1..]) == Play(s, rounds)
    ensures forall v: int :: v in next.slides ==> v in s.slides && v != rounds[0].winner
  {
    var w := rounds[0].winner;
    var step := ChooseStep(s, w, rounds[0].draws);
    assert step.Ok?;
    ChooseKeepsWellFormed(s, w, rounds[0].draws);
    next := step.value;
  }

  /** Every deck of that shape is what some upload stores: the model of the
      shuffle leaves no ordering of the pages out. */
  lemma UploadedDeckIsReachable(s: Session, token: string, n: nat)
    requires UploadedDeck(s, token, n)
    ensures exists draws :: NewSession(token, n, draws) == s
  {
    var ids := Range(n);
    forall v
      ensures multiset(s.slides)[v] == multiset(ids)[v]
    {
      NoDuplicatesCount(s.slides, v);
      NoDuplicatesCount(ids, v);
      assert v in s.slides <==> v in ids;
      assert v in s.slides <==> v in multiset(s.slides);
      assert v in ids <==> v in multiset(ids);
    }
    assert multiset(s.slides) == multiset(ids);
    ShuffleReachesEveryPermutation(ids, s.slides);
    var draws :| Shuffled(ids, draws) == s.slides;
    assert s.slideImages == SlidePaths(token, n);
    assert NewSession(token, n, draws) == s;
  }

  /** Page indices below n are all in play in a freshly uploaded n-page deck. */
  lemma WinnersInPlay(s: Session, token: string, n: nat, rounds: seq<Round>)
    requires UploadedDeck(s, token, n)
    requires forall i :: 0 <= i < |rounds| ==> 0 <= rounds[i].winner < n
    ensures forall i :: 0 <= i < |rounds| ==> rounds[i].winner in s.slides
  {
    forall i | 0 <= i < |rounds|
      ensures rounds[i].winner in s.slides
    {
      var w := rounds[i].winner;
      assert 0 <= w < n;
    }
  }

  /** Starting from an accepted n-page upload, n - 1 choices of distinct page
      indices leave exactly one slide: the page never submitted. Pick then
      redirects to the result, which shows that page as number index + 1. */
  lemma SoleSurvivor(s: Session, token: string, n: nat, rounds: seq<Round>)
    requires UploadedDeck(s, token, n) && PageCountAccepted(n)
    requires |rounds| == n - 1
    requires NoDuplicates(Winners(rounds))
    requires forall i :: 0 <= i < |rounds| ==> 0 <= rounds[i].winner < n
    ensures Play(s, rounds).Ok?
    ensures var t := Play(s, rounds).value;
            && WellFormed(t)
            && t.slideImages == s.slideImages
            && |t.slides| == 1
            && PickView(t) == Ok(RedirectToResult)
            && ResultView(t) == Ok(ResultPage(t.slides[0], t.slides[0] + 1, SlidePath(token, t.slides[0])))
    ensures forall u :: 0 <= u < n ==> (u in Play(s, rounds).value.slides <==> u !in Winners(rounds))
  {
    WinnersInPlay(s, token, n, rounds);
    PlayRemovesWinners(s, rounds);
    var t := Play(s, rounds).value;
    FinalViews(token, n, s, t);
    forall u | 0 <= u < n
      ensures u in t.slides <==> u !in Winners(rounds)
    {
      assert u in s.slides;
    }
  }

  /** Once one slide of an n-page deck is left, pick redirects and the result
      page shows that slide, its 1-based number and its image path. */
  lemma FinalViews(token: string, n: nat, s: Session, t: Session)
    requires WellFormed(t) && |t.slides| == 1
    requires t.slideImages == s.slideImages
    requires |s.slideImages| == n
    requires forall i :: 0 <= i < n ==> s.slideImages[i] == SlidePath(token, i)
    ensures PickView(t) == Ok(RedirectToResult)
    ensures ResultView(t) == Ok(ResultPage(t.slides[0], t.slides[0] + 1, SlidePath(token, t.slides[0])))
  {
    var v := t.slides[0];
    assert v < |t.slideImages|;
    assert t.slideImages[v] == SlidePath(token, v);
  }

  /** The same for every run of n - 1 choices in which no choice raised:
      such a run always ends with the one page never submitted. */
  lemma AnyValidRunLeavesSoleSurvivor(s: Session, token: string, n: nat, rounds: seq<Round>)
    requires UploadedDeck(s, token, n) && PageCountAccepted(n)
    requires |rounds| == n - 1
    requires Play(s, rounds).Ok?
    ensures var t := Play(s, rounds).value;
            && WellFormed(t)
            && |t.slides| == 1
            && PickView(t) == Ok(RedirectToResult)
            && ResultView(t) == Ok(ResultPage(t.slides[0], t.slides[0] + 1, SlidePath(token, t.slides[0])))
    ensures forall u :: 0 <= u < n ==> (u in Play(s, rounds).value.slides <==> u !in Winners(rounds))
  {
    PlayOkMeansValidChoices(s, rounds);
    forall i | 0 <= i < |rounds|
      ensures 0 <= rounds[i].winner < n
    {
      assert rounds[i].winner == Winners(rounds)[i];
      assert rounds[i].winner in s.slides;
    }
    SoleSurvivor(s, token, n, rounds);
  }

  /** Pick keeps offering a pair until exactly n - 1 choices have been made,
      and redirects to the result from then on. */
  lemma ResultAfterExactlyNMinusOneChoices(s: Session, token: string, n: nat, rounds: seq<Round>)
    requires UploadedDeck(s, token, n) && PageCountAccepted(n)
    requires |rounds| <= n - 1
    requires NoDuplicates(Winners(rounds))
    requires forall i :: 0 <= i < |rounds| ==> 0 <= rounds[i].winner < n
    ensures Play(s, rounds).Ok?
    ensures var t := Play(s, rounds).value;
            && WellFormed(t)
            && (PickView(t) == Ok(RedirectToResult) <==> |rounds| == n - 1)
            && (|rounds| < n - 1 ==> PickView(t).Ok? && PickView(t).value.Compare?)
  {
    WinnersInPlay(s, token, n, rounds);
    PlayRemovesWinners(s, rounds);
  }

  /** The shuffles change only the order in which pairs are offered: the same
      n - 1 submitted values, from any uploaded deck of the same pages and
      whatever the draws after each choice, end in the same record. */
  lemma SurvivorIgnoresShuffles(s1: Session, s2: Session, token: string, n: nat,
                                rounds1: seq<Round>, rounds2: seq<Round>)
    requires UploadedDeck(s1, token, n) && UploadedDeck(s2, token, n) && PageCountAccepted(n)
    requires |rounds1| == n - 1
    requires Winners(rounds1) == Winners(rounds2)
    requires NoDuplicates(Winners(rounds1))
    requires forall i :: 0 <= i < |rounds1| ==> 0 <= rounds1[i].winner < n
    ensures Play(s1, rounds1).Ok? && Play(s2, rounds2).Ok?
    ensures Play(s1, rounds1) == Play(s2, rounds2)
  {
    assert |rounds2| == |Winners(rounds2)|;
    forall i | 0 <= i < |rounds2|
      ensures 0 <= rounds2[i].winner < n
    {
      assert rounds2[i].winner == Winners(rounds2)[i] == rounds1[i].winner;
    }
    SoleSurvivor(s1, token, n, rounds1);
    SoleSurvivor(s2, token, n, rounds2);
    var t1, t2 := Play(s1, rounds1).value, Play(s2, rounds2).value;
    assert t1.slides[0] < |t1.slideImages| == n;
    SameSoleSlide(t1, t2, n, Winners(rounds1));
    assert forall i :: 0 <= i < n ==> s1.slideImages[i] == s2.slideImages[i];
    assert t1.slideImages == t2.slideImages;
  }

  /** Two one-slide records whose slide is characterised the same way hold the same slide. */
  lemma SameSoleSlide(t1: Session, t2: Session, n: nat, ws: seq<int>)
    requires |t1.slides| == 1 && |t2.slides| == 1
    requires t1.slides[0] < n
    requires forall u :: 0 <= u < n ==> (u in t1.slides <==> u !in ws)
    requires forall u :: 0 <= u < n ==> (u in t2.slides <==> u !in ws)
    ensures t1.slides == t2.slides
  {
    var v := t1.slides[0];
    assert v in t1.slides;
    assert v in t2.slides;
    assert t1.slides == [v] == t2.slides;
  }

  /** Nothing stops a choice once one slide is left: submitting that slide
      empties the record, after which both pick and result raise IndexError. */
  lemma ChoosingTheLastSlide(s: Session, draws: seq<nat>)
    requires WellFormed(s)
    requires |s.slides| == 1
    ensures ChooseStep(s, s.slides[0], draws).Ok?
    ensures var t := ChooseStep(s, s.slides[0], draws).value;
            t.slides == [] && PickView(t) == Raised(IndexError) && ResultView(t) == Raised(IndexError)
  {
    assert s.slides[0] in s.slides;
  }
}
