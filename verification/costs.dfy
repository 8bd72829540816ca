/**
 `process_costs.py`: turning a Cost Explorer result into the services with a
 positive cost, their total and a descending ordering, and the figures and
 tables of the HTML report. Amounts are exact reals (the script's floats are
 not modelled); JSON loading, file writing and the HTML text are left out.
 */
module Costs {
  import opened Wrappers

  /** One `Groups` entry: `Keys` and the parsed `Metrics.BlendedCost.Amount`. */
  datatype Group = Group(keys: seq<string>, amount: real)

  /** One `ResultsByTime` entry. */
  datatype Period = Period(groups: seq<Group>)

  datatype CostData = CostData(resultsByTime: seq<Period>)

  datatype Service = Service(name: string, cost: real)

  /** The `IndexError` of `group['Keys'][0]` on a group without keys. */
  datatype CostError = GroupWithoutKeys

  /** All groups, period by period, in file order. */
  function AllGroups(periods: seq<Period>): (groups: seq<Group>)
    ensures forall p :: p in periods ==> multiset(p.groups) <= multiset(groups)
  {
    if |periods| == 0 then [] else periods[0].groups + AllGroups(periods[1..])
  }

  /** The nested loop visits the periods in order: a concatenation of periods gives the groups of each part in turn. */
  lemma {:induction false} AllGroupsAppend(a: seq<Period>, b: seq<Period>)
    ensures AllGroups(a + b) == AllGroups(a) + AllGroups(b)
    decreases |a|
  {
    if |a| == 0 {
      assert a + b == b;
    } else {
      assert (a + b)[0] == a[0];
      assert (a + b)[1..] == a[1..] + b;
      AllGroupsAppend(a[1..], b);
    }
  }

  /** One period contributes its own groups, in order. */
  lemma AllGroupsOne(p: Period)
    ensures AllGroups([p]) == p.groups
  {
    var none: seq<Period> := [];
    assert [p][1..] == none;
    assert AllGroups(none) == [];
  }

  /** The service a group with a key describes. */
  function ServiceOf(g: Group): Service
    requires |g.keys| > 0
  {
    Service(g.keys[0], g.amount)
  }

  /** The loop of `process_cost_data`: the services with `cost > 0`, in input order. */
  function Collect(groups: seq<Group>): (r: Result<seq<Service>, CostError>)
    ensures r.Success? <==> forall i :: 0 <= i < |groups| ==> |groups[i].keys| > 0
    ensures r.Success? ==> forall s :: s in r.value <==>
              exists i :: 0 <= i < |groups| && |groups[i].keys| > 0 && groups[i].amount > 0.0 && s == ServiceOf(groups[i])
    ensures r.Success? ==> forall k :: 0 <= k < |r.value| ==> r.value[k].cost > 0.0
    decreases |groups|
  {
    if |groups| == 0 then Success([])
    else
      var g := groups[0];
      if |g.keys| == 0 then Failure(GroupWithoutKeys)
      else match Collect(groups[1..])
        case Failure(e) => Failure(e)
        case Success(rest) =>
          assert forall i :: 1 <= i < |groups| ==> groups[i] == groups[1..][i - 1];
          if g.amount > 0.0 then Success([ServiceOf(g)] + rest) else Success(rest)
  }

  /**
   `Collect` works group by group: a concatenation fails exactly when one of
   its parts does, and otherwise keeps the services of the first part followed
   by those of the second, repeats and order included.
   */
  lemma {:induction false} CollectAppend(a: seq<Group>, b: seq<Group>)
    ensures Collect(a + b).Success? <==> Collect(a).Success? && Collect(b).Success?
    ensures Collect(a + b).Success? ==> Collect(a + b).value == Collect(a).value + Collect(b).value
    decreases |a|
  {
    if |a| == 0 {
      assert a + b == b;
    } else {
      assert (a + b)[0] == a[0];
      assert (a + b)[1..] == a[1..] + b;
      CollectAppend(a[1..], b);
    }
  }

  /** One group: an error without keys, its service when the amount is positive, nothing otherwise. */
  lemma CollectOne(g: Group)
    ensures Collect([g]) == if |g.keys| == 0 then Failure(GroupWithoutKeys)
                            else if g.amount > 0.0 then Success([ServiceOf(g)]) else Success([])
  {
    var none: seq<Group> := [];
    assert [g][1..] == none;
    assert Collect(none) == Success([]);
    if |g.keys| > 0 && g.amount > 0.0 {
      var kept: seq<Service> := [];
      assert Collect([g]) == Success([ServiceOf(g)] + kept);
      assert [ServiceOf(g)] + kept == [ServiceOf(g)];
    }
  }

  function Sum(services: seq<Service>): real
  {
    if |services| == 0 then 0.0 else services[0].cost + Sum(services[1..])
  }

  lemma {:induction false} SumAppend(a: seq<Service>, b: seq<Service>)
    ensures Sum(a + b) == Sum(a) + Sum(b)
    decreases |a|
  {
    if |a| == 0 {
      assert a + b == b;
    } else {
      assert (a + b)[1..] == a[1..] + b;
      SumAppend(a[1..], b);
    }
  }

  /** The loop's `total_cost += cost`: the positive amounts added to `acc` in input order. */
  function RunningTotal(acc: real, groups: seq<Group>): (total: real)
    ensures total >= acc
    decreases |groups|
  {
    if |groups| == 0 then acc
    else RunningTotal(if groups[0].amount > 0.0 then acc + groups[0].amount else acc, groups[1..])
  }

  /** The running total of the loop is the sum of the services it keeps. */
  lemma {:induction false} RunningTotalIsSum(acc: real, groups: seq<Group>)
    requires Collect(groups).Success?
    ensures RunningTotal(acc, groups) == acc + Sum(Collect(groups).value)
    decreases |groups|
  {
    if |groups| > 0 {
      var g := groups[0];
      assert groups == [g] + groups[1..];
      CollectAppend([g], groups[1..]);
      CollectOne(g);
      RunningTotalIsSum(if g.amount > 0.0 then acc + g.amount else acc, groups[1..]);
    }
  }

  /** Non-increasing by cost. */
  predicate SortedByCostDesc(s: seq<Service>)
  {
    forall i, j :: 0 <= i < j < |s| ==> s[i].cost >= s[j].cost
  }

  /** The services of cost `c`, in order: the relative order a stable sort must keep. */
  function WithCost(s: seq<Service>, c: real): (r: seq<Service>)
    ensures |r| <= |s|
  {
    if |s| == 0 then []
    else if s[0].cost == c then [s[0]] + WithCost(s[1..], c)
    else WithCost(s[1..], c)
  }

  /** Inserts `x` after every service that costs more and before the rest. */
  function Insert(x: Service, s: seq<Service>): (r: seq<Service>)
    ensures multiset(r) == multiset(s) + multiset{x}
    ensures Sum(r) == x.cost + Sum(s)
    decreases |s|
  {
    if |s| == 0 then [x]
    else if s[0].cost > x.cost then
      var r := [s[0]] + Insert(x, s[1..]);
      assert r[1..] == Insert(x, s[1..]);
      assert s == [s[0]] + s[1..];
      r
    else
      assert ([x] + s)[1..] == s;
      [x] + s
  }

  /** A bound on every cost survives insertion of a service within it. */
  lemma {:induction false} InsertBounded(x: Service, s: seq<Service>, b: real)
    requires x.cost <= b && forall k :: 0 <= k < |s| ==> s[k].cost <= b
    ensures forall k :: 0 <= k < |Insert(x, s)| ==> Insert(x, s)[k].cost <= b
    decreases |s|
  {
    if |s| > 0 && s[0].cost > x.cost {
      InsertBounded(x, s[1..], b);
      var r := Insert(x, s);
      assert r == [s[0]] + Insert(x, s[1..]);
      forall k | 1 <= k < |r| ensures r[k].cost <= b {
        assert r[k] == Insert(x, s[1..])[k - 1];
      }
    }
  }

  /** Insertion keeps a descending order descending. */
  lemma {:induction false} InsertSorted(x: Service, s: seq<Service>)
    requires SortedByCostDesc(s)
    ensures SortedByCostDesc(Insert(x, s))
    decreases |s|
  {
    if |s| > 0 && s[0].cost > x.cost {
      var t := s[1..];
      InsertSorted(x, t);
      InsertBounded(x, t, s[0].cost);
      var r := Insert(x, s);
      var u := Insert(x, t);
      assert r == [s[0]] + u;
      forall i, j | 0 <= i < j < |r| ensures r[i].cost >= r[j].cost {
        assert r[j] == u[j - 1];
        if i > 0 {
          assert r[i] == u[i - 1];
        }
      }
    }
  }

  /** `x` comes before every service of its own cost: the cost classes keep their order. */
  lemma {:induction false} InsertWithCost(x: Service, s: seq<Service>, c: real)
    ensures WithCost(Insert(x, s), c) == if x.cost == c then [x] + WithCost(s, c) else WithCost(s, c)
    decreases |s|
  {
    if |s| > 0 && s[0].cost > x.cost {
      InsertWithCost(x, s[1..], c);
      assert Insert(x, s)[1..] == Insert(x, s[1..]);
    } else if |s| > 0 {
      assert ([x] + s)[1..] == s;
    }
  }

  /** `services.sort(key=lambda x: x['cost'], reverse=True)`: a stable sort by descending cost. */
  function SortByCostDesc(s: seq<Service>): (r: seq<Service>)
    ensures SortedByCostDesc(r)
    ensures multiset(r) == multiset(s)
    ensures forall c :: WithCost(r, c) == WithCost(s, c)
    ensures Sum(r) == Sum(s)
    decreases |s|
  {
    if |s| == 0 then []
    else
      assert s == [s[0]] + s[1..];
      var rest := SortByCostDesc(s[1..]);
      InsertSorted(s[0], rest);
      assert forall c :: WithCost(Insert(s[0], rest), c) == WithCost(s, c) by {
        forall c ensures WithCost(Insert(s[0], rest), c) == WithCost(s, c) {
          InsertWithCost(s[0], rest, c);
        }
      }
      Insert(s[0], rest)
  }

  /** `process_cost_data`: the sorted services and their total, or the error of a group without keys. */
  function ProcessCostData(data: CostData): (r: Result<(seq<Service>, real), CostError>)
    ensures var groups := AllGroups(data.resultsByTime);
            r.Success? <==> forall i :: 0 <= i < |groups| ==> |groups[i].keys| > 0
    ensures r.Success? ==>
              var kept := Collect(AllGroups(data.resultsByTime)).value;
              && SortedByCostDesc(r.value.0)
              && multiset(r.value.0) == multiset(kept)
              && (forall c :: WithCost(r.value.0, c) == WithCost(kept, c))
              && r.value.1 == Sum(kept)
              && r.value.1 == Sum(r.value.0)
  {
    match Collect(AllGroups(data.resultsByTime))
    case Failure(e) => Failure(e)
    case Success(kept) => Success((SortByCostDesc(kept), Sum(kept)))
  }

  /** The total returned is the running total the loop accumulates over every period's groups. */
  lemma ProcessedTotal(data: CostData)
    requires ProcessCostData(data).Success?
    ensures ProcessCostData(data).value.1 == RunningTotal(0.0, AllGroups(data.resultsByTime))
  {
    RunningTotalIsSum(0.0, AllGroups(data.resultsByTime));
  }

  // ---------------------------------------------------------------------------
  // The report
  // ---------------------------------------------------------------------------

  /** `categorize_services()['essential']`. */
  const Essential: seq<string> := [
    "Amazon Elastic Compute Cloud - Compute",
    "Amazon Relational Database Service",
    "Amazon Virtual Private Cloud",
    "Amazon Elastic Load Balancing",
    "Amazon Simple Storage Service",
    "EC2 - Other",
    "Amazon EC2 Container Registry (ECR)",
    "Amazon Elastic Container Service"
  ]

  /** `categorize_services()['optional_high_impact']`. */
  const HighImpact: seq<string> := [
    "AWS Config",
    "AWS Security Hub",
    "AWS Support (Business)",
    "Amazon QuickSight",
    "Amazon OpenSearch Service"
  ]

  /** `categorize_services()['optional_low_impact']`. */
  const LowImpact: seq<string> := [
    "AWS Amplify",
    "AWS Secrets Manager",
    "Amazon Route 53",
    "CodeBuild",
    "AWS Lambda",
    "Amazon DynamoDB",
    "Amazon Simple Email Service"
  ]

  /** No service name is in two categories. */
  lemma CategoriesDisjoint()
    ensures forall n :: n in Essential ==> n !in HighImpact && n !in LowImpact
    ensures forall n :: n in HighImpact ==> n !in LowImpact
  {
  }

  /** The services whose name is in `names`, in order: the rows of one report table. */
  function InCategory(s: seq<Service>, names: seq<string>): (r: seq<Service>)
    ensures forall x :: x in r <==> x in s && x.name in names
    ensures |r| <= |s|
  {
    if |s| == 0 then []
    else if s[0].name in names then [s[0]] + InCategory(s[1..], names)
    else InCategory(s[1..], names)
  }

  /**
   A table's rows follow the service list: the rows of a concatenation are
   the rows of its first part followed by those of its second, repeats included.
   */
  lemma {:induction false} InCategoryAppend(a: seq<Service>, b: seq<Service>, names: seq<string>)
    ensures InCategory(a + b, names) == InCategory(a, names) + InCategory(b, names)
    decreases |a|
  {
    if |a| == 0 {
      assert a + b == b;
    } else {
      assert (a + b)[0] == a[0];
      assert (a + b)[1..] == a[1..] + b;
      InCategoryAppend(a[1..], b, names);
    }
  }

  /** One service is a row exactly when its name is in the category. */
  lemma InCategoryOne(x: Service, names: seq<string>)
    ensures InCategory([x], names) == if x.name in names then [x] else []
  {
    assert [x][1..] == [];
  }

  const ConsiderReviewing: string := "Consider reviewing"
  const Monitor: string := "Monitor"

  /** The low-impact table's advice for a monthly cost. */
  function Recommendation(cost: real): (advice: string)
    ensures advice == ConsiderReviewing <==> cost > 5.0
    ensures advice == Monitor <==> cost <= 5.0
  {
    if cost > 5.0 then ConsiderReviewing else Monitor
  }

  datatype LowImpactRow = LowImpactRow(service: Service, recommendation: string)

  function LowImpactRows(s: seq<Service>): (rows: seq<LowImpactRow>)
    ensures |rows| == |s|
    ensures forall k :: 0 <= k < |s| ==> rows[k] == LowImpactRow(s[k], Recommendation(s[k].cost))
  {
    if |s| == 0 then [] else [LowImpactRow(s[0], Recommendation(s[0].cost))] + LowImpactRows(s[1..])
  }

  /** The figures and tables of `generate_html_report`. */
  datatype Report = Report(
    savings: real, annualSavings: real, total: real,
    cutNow: seq<Service>, essential: seq<Service>, lowImpact: seq<LowImpactRow>)

  function GenerateReport(services: seq<Service>, total: real): (r: Report)
    ensures r.savings == Sum(r.cutNow) && r.annualSavings == 12.0 * r.savings && r.total == total
    ensures forall x :: x in r.cutNow <==> x in services && x.name in HighImpact
    ensures forall x :: x in r.essential <==> x in services && x.name in Essential
    ensures r.cutNow == InCategory(services, HighImpact) && r.essential == InCategory(services, Essential)
    ensures r.lowImpact == LowImpactRows(InCategory(services, LowImpact))
  {
    var cut := InCategory(services, HighImpact);
    Report(Sum(cut), 12.0 * Sum(cut), total, cut, InCategory(services, Essential),
           LowImpactRows(InCategory(services, LowImpact)))
  }

  /** A service is listed in at most one table; one in no category is listed in none. */
  lemma AtMostOneTable(services: seq<Service>, total: real, x: Service)
    ensures var r := GenerateReport(services, total);
            var low := exists k :: 0 <= k < |r.lowImpact| && r.lowImpact[k].service == x;
            && (x in r.cutNow ==> x !in r.essential && !low)
            && (x in r.essential ==> !low)
            && ((x.name !in Essential && x.name !in HighImpact && x.name !in LowImpact)
                ==> x !in r.cutNow && x !in r.essential && !low)
  {
    CategoriesDisjoint();
    var r := GenerateReport(services, total);
    var lows := InCategory(services, LowImpact);
    if exists k :: 0 <= k < |r.lowImpact| && r.lowImpact[k].service == x {
      var k :| 0 <= k < |r.lowImpact| && r.lowImpact[k].service == x;
      assert lows[k] == x;
      assert x in lows;
    }
  }

  /** The sum over a sub-list of services with non-negative costs is at most the whole sum. */
  lemma {:induction false} CategorySumBounded(s: seq<Service>, names: seq<string>)
    requires forall k :: 0 <= k < |s| ==> s[k].cost >= 0.0
    ensures 0.0 <= Sum(InCategory(s, names)) <= Sum(s)
    decreases |s|
  {
    if |s| > 0 {
      CategorySumBounded(s[1..], names);
      if s[0].name in names {
        assert InCategory(s, names)[1..] == InCategory(s[1..], names);
      }
    }
  }

  /** The category sum is the same in any order the stable sort produces. */
  lemma {:induction false} CategorySumInsert(x: Service, s: seq<Service>, names: seq<string>)
    ensures Sum(InCategory(Insert(x, s), names)) == (if x.name in names then x.cost else 0.0) + Sum(InCategory(s, names))
    decreases |s|
  {
    if |s| > 0 && s[0].cost > x.cost {
      CategorySumInsert(x, s[1..], names);
      assert Insert(x, s)[1..] == Insert(x, s[1..]);
      if s[0].name in names {
        assert InCategory(Insert(x, s), names)[1..] == InCategory(Insert(x, s[1..]), names);
      }
    } else if |s| > 0 {
      assert Insert(x, s)[1..] == s;
      if x.name in names {
        assert InCategory(Insert(x, s), names)[1..] == InCategory(s, names);
      }
    }
  }

  lemma {:induction false} CategorySumSorted(s: seq<Service>, names: seq<string>)
    ensures Sum(InCategory(SortByCostDesc(s), names)) == Sum(InCategory(s, names))
    decreases |s|
  {
    if |s| > 0 {
      CategorySumSorted(s[1..], names);
      CategorySumInsert(s[0], SortByCostDesc(s[1..]), names);
      if s[0].name in names {
        assert InCategory(s, names)[1..] == InCategory(s[1..], names);
      }
    }
  }

  /**
   On the output of `process_cost_data`, the high-impact savings are the costs
   of the positive-cost high-impact services of the input, and at most the total.
   */
  lemma SavingsWithinTotal(data: CostData)
    requires ProcessCostData(data).Success?
    ensures var (services, total) := ProcessCostData(data).value;
            var kept := Collect(AllGroups(data.resultsByTime)).value;
            var r := GenerateReport(services, total);
            && r.savings == Sum(InCategory(kept, HighImpact))
            && 0.0 <= r.savings <= total
  {
    var kept := Collect(AllGroups(data.resultsByTime)).value;
    CategorySumSorted(kept, HighImpact);
    CategorySumBounded(kept, HighImpact);
  }

  /**
   `main`'s exit status for `sys.argv`: 1 without exactly two arguments, or
   when loading, processing or writing fails; 0 otherwise. `load` stands for
   reading and parsing the JSON file, `write` for saving the report.
   */
  function MainExitCode(argv: seq<string>, load: string -> Option<CostData>, write: (string, Report) -> bool): (code: int)
    ensures code == 0 || code == 1
    ensures |argv| != 3 ==> code == 1
    ensures code == 0 <==>
              && |argv| == 3 && load(argv[1]).Some?
              && ProcessCostData(load(argv[1]).value).Success?
              && write(argv[2], GenerateReport(ProcessCostData(load(argv[1]).value).value.0,
                                               ProcessCostData(load(argv[1]).value).value.1))
  {
    if |argv| != 3 then 1
    else match load(argv[1])
      case None => 1
      case Some(data) =>
        match ProcessCostData(data)
        case Failure(_) => 1
        case Success((services, total)) =>
          if write(argv[2], GenerateReport(services, total)) then 0 else 1
  }
}
