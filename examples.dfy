/** The homepage's own publication lists, and small records, as worked examples of
    the link resolver, the year key, the sort and the rendered fields. */
module Examples {
  import opened Papers
  import opened JsNumbers
  import opened LinkResolver
  import opened YearOrder
  import opened YearSort
  import opened Display

  const NoLinks := Some(Links(None, None, None))

  function Arxiv(url: string): Option<Links>
  {
    Some(Links(None, Some(url), None))
  }

  const SparseFlexibility :=
    Paper(Str("2025+"), "Optimality of Random Regular Graphs for Sparse Flexibility Designs",
          ["Weijia Li", "Xiaochun Niu", "Yehua Wei", "Jiaming Xu"], "Working Paper", NoLinks, None, None)
  const GraphMatching :=
    Paper(Str("2025+"), "Approximate Random Geometric Graph Matching",
          ["Xiaochun Niu", "Tselil Schramm", "Jiaming Xu"], "Working Paper", NoLinks, None, None)

  const WorkingPapers: seq<Paper> := [SparseFlexibility, GraphMatching]

  const SharedRepresentations :=
    Paper(Str("2025+"), "Learning with Shared Representations: Statistical Rates and Efficient Algorithms",
          ["Xiaochun Niu", "Lili Su", "Jiaming Xu", "Pengkun Yang"], "Submitted",
          Arxiv("https://arxiv.org/abs/2409.04919"),
          Some("Oral presentation at International Workshop on Federated Foundation Models (NeurIPS 2024)"), None)
  const LabelRecovery :=
    Paper(Str("2025+"), "Exact Label Recovery in Euclidean Random Graphs",
          ["Julia Gaudio", "Charlie Guan", "Xiaochun Niu", "Ermin Wei"],
          "Major Revision, Annals of Applied Probability", Arxiv("https://arxiv.org/abs/2407.11163"), None, None)
  const DishJournal :=
    Paper(Num(2024), "DISH: A Distributed Hybrid Optimization Method Leveraging System Heterogeneity",
          ["Xiaochun Niu", "Ermin Wei"], "IEEE Transactions on Signal Processing",
          Arxiv("https://arxiv.org/abs/2212.02638"), Some("Extended abstract in Allerton Conference, 2022"), None)
  const FedHybrid :=
    Paper(Num(2023), "FedHybrid: A Hybrid Federated Optimization Method for Heterogeneous Clients",
          ["Xiaochun Niu", "Ermin Wei"], "IEEE Transactions on Signal Processing",
          Arxiv("https://ieeexplore.ieee.org/document/10026496"), None, None)

  const JournalPapers: seq<Paper> := [SharedRepresentations, LabelRecovery, DishJournal, FedHybrid]

  const IncentiveAnalysis :=
    Paper(Num(2025), "Incentive Analysis for Agent Participation in Federated Learning",
          ["Lihui Yi", "Xiaochun Niu", "Ermin Wei"], "IEEE Conference on Decision and Control (CDC)",
          Arxiv("https://arxiv.org/abs/2503.09039"), None, None)
  const CommunityRecovery :=
    Paper(Num(2024), "Exact Community Recovery in the Geometric Stochastic Block Model",
          ["Julia Gaudio", "Xiaochun Niu", "Ermin Wei"], "ACM-SIAM Symposium on Discrete Algorithms (SODA)",
          Arxiv("https://arxiv.org/abs/2307.11196"), None, Some("Nemhauser Prize for Best Student Paper, 2024"))
  const Generalization :=
    Paper(Num(2024), "Understanding Generalization of Federated Learning via Stability: Heterogeneity Matters",
          ["Zhenyu Sun", "Xiaochun Niu", "Ermin Wei"],
          "International Conference on Artificial Intelligence and Statistics (AISTATS)",
          Arxiv("https://arxiv.org/abs/2306.03824"), None, None)
  const DishConference :=
    Paper(Num(2022), "DISH: A Distributed Hybrid Primal-Dual Optimization Framework to Utilize System Heterogeneity",
          ["Xiaochun Niu", "Ermin Wei"], "IEEE Conference on Decision and Control (CDC)",
          Arxiv("https://ieeexplore.ieee.org/abstract/document/9993156"), None, None)

  const ConferencePapers: seq<Paper> := [IncentiveAnalysis, CommunityRecovery, Generalization, DishConference]

  /** "2025+" has key 2025: its leading number. */
  lemma KeyOf2025Plus()
    ensures YearKey(Str("2025+")) == 2025
  {
    assert "2025" + "+" == "2025+";
    assert DigitsValue("2025", 10) == 2025 by {
      assert "2025"[..3] == "202" && "202"[..2] == "20" && "20"[..1] == "2" && "2"[..0] == "";
    }
    KeyOfLeadingDecimal("2025", "+");
  }

  /** "TBD" and "0" have the sentinel key; the number 0 keeps key 0. */
  lemma SentinelExamples()
    ensures YearKey(Str("TBD")) == Sentinel
    ensures YearKey(Str("0")) == Sentinel
    ensures YearKey(Num(0)) == 0
  {
    KeyOfNoLeadingDigit("TBD");
    assert "0" + "" == "0";
    assert DigitsValue("0", 10) == 0 by {
      assert "0"[..0] == "";
    }
    KeyOfLeadingDecimal("0", "");
  }

  /** The link examples: arxiv when there is no pdf, nothing for `{}` or an empty pdf. */
  lemma PaperHrefExamples()
    ensures PaperHref(Some(Links(None, Some("A"), Some("B")))) == Some("A")
    ensures PaperHref(Some(Links(Some("P"), Some("A"), Some("B")))) == Some("P")
    ensures PaperHref(Some(Links(Some(""), Some(""), Some("B")))) == Some("B")
    ensures PaperHref(NoLinks) == None
    ensures PaperHref(Some(Links(Some(""), None, None))) == None
    ensures PaperHref(None) == None
  {
  }

  /** Authors ["A", "B", "C"] give the author line "A, B, C". */
  lemma AuthorLineExample()
    ensures Join(["A", "B", "C"], ", ") == "A, B, C"
  {
    assert ["A", "B", "C"][1..] == ["B", "C"] && ["B", "C"][1..] == ["C"];
  }

  /** The number 2024 is shown as "2024". */
  lemma TextOf2024()
    ensures NumberToString(2024) == "2024"
  {
    assert DecimalString(2) == "2";
    assert DecimalString(20) == "20";
    assert DecimalString(202) == "202";
  }

  /** A textual year is shown as written. */
  lemma VenueLineOfText()
    ensures VenueLine(SparseFlexibility) == "Working Paper, 2025+"
  {
  }

  /** A numeric year is shown as its decimal text. */
  lemma VenueLineOfNumber()
    ensures VenueLine(DishJournal) == "IEEE Transactions on Signal Processing, 2024"
  {
    TextOf2024();
  }

  /** A paper with `links: {}` renders as a plain title; one with only an arxiv link
      links to it. */
  lemma TitleLinkExamples()
    ensures RenderEntry(SparseFlexibility).link == None
    ensures RenderEntry(SharedRepresentations).link == Some("https://arxiv.org/abs/2409.04919")
  {
  }

  /** Three papers whose keys are, in input order, low, high and middle come out as
      high, middle, low. */
  lemma SortThree(a: Paper, b: Paper, c: Paper, key: Paper -> int)
    requires key(a) < key(c) < key(b)
    ensures SortDesc([a, b, c], key) == [b, c, a]
  {
    var s := [a, b, c];
    assert [a][..0] == [] && [b][..0] == [];
    assert SortDesc([a], key) == [a];
    assert [a, b][..1] == [a];
    assert SortDesc([a, b], key) == Insert([a], b, key) == [b, a];
    assert s[..2] == [a, b];
    assert [b, a][..1] == [b];
    assert SortDesc(s, key) == Insert([b, a], c, key) == Insert([b], c, key) + [a];
  }

  /** Dated papers for the sort example: 2023, "2025+" and 2024. */
  const Dated2023 := Paper(Num(2023), "T1", ["A"], "V", NoLinks, None, None)
  const Dated2025Plus := Paper(Str("2025+"), "T2", ["B"], "V", NoLinks, None, None)
  const Dated2024 := Paper(Num(2024), "T3", ["C"], "V", NoLinks, None, None)

  /** A paper marked "2025+" sorts before a paper of 2024, which sorts before one of 2023. */
  lemma SortExample()
    ensures SortDesc([Dated2023, Dated2025Plus, Dated2024], Key) == [Dated2025Plus, Dated2024, Dated2023]
  {
    KeyOf2025Plus();
    assert Key(Dated2023) == 2023 && Key(Dated2025Plus) == 2025 && Key(Dated2024) == 2024;
    SortThree(Dated2023, Dated2025Plus, Dated2024, Key);
  }

  /** Two papers whose keys do not increase stay as they are. */
  lemma KeepTwo(a: Paper, b: Paper, key: Paper -> int)
    requires key(a) >= key(b)
    ensures SortDesc([a, b], key) == [a, b]
  {
    assert NonIncreasing([a, b], key);
    SortDescIdempotent([a, b], key);
  }

  /** Four papers whose keys never increase stay as they are. */
  lemma KeepFour(a: Paper, b: Paper, c: Paper, d: Paper, key: Paper -> int)
    requires key(a) >= key(b) >= key(c) >= key(d)
    ensures SortDesc([a, b, c, d], key) == [a, b, c, d]
  {
    assert NonIncreasing([a, b, c, d], key);
    SortDescIdempotent([a, b, c, d], key);
  }

  /** The keys of the homepage's lists, front to back. */
  lemma WorkingPaperKeys()
    ensures Key(SparseFlexibility) == 2025 && Key(GraphMatching) == 2025
  {
    KeyOf2025Plus();
  }

  lemma JournalPaperKeys()
    ensures Key(SharedRepresentations) == 2025 && Key(LabelRecovery) == 2025
    ensures Key(DishJournal) == 2024 && Key(FedHybrid) == 2023
  {
    KeyOf2025Plus();
  }

  lemma ConferencePaperKeys()
    ensures Key(IncentiveAnalysis) == 2025 && Key(CommunityRecovery) == 2024
    ensures Key(Generalization) == 2024 && Key(DishConference) == 2022
  {
  }

  /** The homepage's lists are already in descending year order, so the sort keeps them
      as written; papers whose keys tie (the two "2025+" working papers, the two 2024
      conference papers) stay in their order. */
  lemma WorkingPapersKeepOrder()
    ensures SortDesc(WorkingPapers, Key) == WorkingPapers
  {
    WorkingPaperKeys();
    KeepTwo(SparseFlexibility, GraphMatching, Key);
  }

  lemma JournalPapersKeepOrder()
    ensures SortDesc(JournalPapers, Key) == JournalPapers
  {
    JournalPaperKeys();
    KeepFour(SharedRepresentations, LabelRecovery, DishJournal, FedHybrid, Key);
  }

  lemma ConferencePapersKeepOrder()
    ensures SortDesc(ConferencePapers, Key) == ConferencePapers
  {
    ConferencePaperKeys();
    KeepFour(IncentiveAnalysis, CommunityRecovery, Generalization, DishConference, Key);
  }

  /** The data checks run at start-up hold: every paper has a title and an author. */
  lemma DatasetsAreSane()
    ensures SaneData(WorkingPapers) && SaneData(JournalPapers) && SaneData(ConferencePapers)
  {
  }
}
