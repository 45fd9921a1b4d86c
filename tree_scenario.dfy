/**
 * The scenario of tree_test.go, worked through the model: a root "/" receives
 * Put("/user/get/:id"), Put("/user/create/hello") and Put("/user/create/aaa"),
 * then Get("/user/get/1") finds the ":id" node and Get("/user/create/hello")
 * finds the "hello" node.
 */
module RouteTreeScenario {
  import opened Wrappers
  import opened Utils
  import opened RouteTree

  // The node tables the three Puts go through.
  const T0 := [Node("/", [], "", false)]
  const A1 := [Node("/", [1], "", false), Node("user", [], "", false)]
  const A2 := [Node("/", [1], "", false), Node("user", [2], "", false), Node("get", [], "", false)]
  const T1 := [Node("/", [1], "", false), Node("user", [2], "", false), Node("get", [3], "", false),
               Node(":id", [], "", true)]
  const B1 := [Node("/", [1], "", false), Node("user", [2, 4], "", false), Node("get", [3], "", false),
               Node(":id", [], "", true), Node("create", [], "", false)]
  const T2 := [Node("/", [1], "", false), Node("user", [2, 4], "", false), Node("get", [3], "", false),
               Node(":id", [], "", true), Node("create", [5], "", false), Node("hello", [], "", true)]
  const T3 := [Node("/", [1], "", false), Node("user", [2, 4], "", false), Node("get", [3], "", false),
               Node(":id", [], "", true), Node("create", [5, 6], "", false), Node("hello", [], "", true),
               Node("aaa", [], "", true)]

  lemma SplitIdRoute()
    ensures Split("/user/get/:id") == ["", "user", "get", ":id"]
  {
    var parts := ["", "user", "get", ":id"];
    assert Join(parts) == "/user/get/:id";
    SplitJoin(parts);
  }

  lemma SplitHelloRoute()
    ensures Split("/user/create/hello") == ["", "user", "create", "hello"]
  {
    var parts := ["", "user", "create", "hello"];
    assert Join(parts) == "/user/create/hello";
    SplitJoin(parts);
  }

  lemma SplitAaaRoute()
    ensures Split("/user/create/aaa") == ["", "user", "create", "aaa"]
  {
    var parts := ["", "user", "create", "aaa"];
    assert Join(parts) == "/user/create/aaa";
    SplitJoin(parts);
  }

  lemma SplitIdRequest()
    ensures Split("/user/get/1") == ["", "user", "get", "1"]
  {
    var parts := ["", "user", "get", "1"];
    assert Join(parts) == "/user/get/1";
    SplitJoin(parts);
  }

  lemma SplitUser()
    ensures Split("/user") == ["", "user"]
  {
    var parts := ["", "user"];
    assert Join(parts) == "/user";
    SplitJoin(parts);
  }

  lemma SplitPaths()
    ensures Split("/user/get/:id") == ["", "user", "get", ":id"]
    ensures Split("/user/create/hello") == ["", "user", "create", "hello"]
    ensures Split("/user/create/aaa") == ["", "user", "create", "aaa"]
    ensures Split("/user/get/1") == ["", "user", "get", "1"]
  {
    SplitIdRoute();
    SplitHelloRoute();
    SplitAaaRoute();
    SplitIdRequest();
  }

  lemma WellFormedT1()
    ensures WellFormed(T0) && WellFormed(A1) && WellFormed(A2) && WellFormed(T1)
  {
  }

  lemma WellFormedT2()
    ensures WellFormed(B1) && WellFormed(T2)
  {
  }

  lemma WellFormedT3()
    ensures WellFormed(T3)
  {
  }

  lemma WellFormedTables()
    ensures WellFormed(T0) && WellFormed(A1) && WellFormed(A2) && WellFormed(T1)
    ensures WellFormed(B1) && WellFormed(T2) && WellFormed(T3)
  {
    WellFormedT1();
    WellFormedT2();
    WellFormedT3();
  }

  lemma PutUser()
    ensures WellFormed(T0) && WellFormed(A1) && PutFrom(T0, 0, ["user", "get", ":id"]) == PutFrom(A1, 1, ["get", ":id"])
  {
    WellFormedTables();
    assert Child(T0, 0, Exact, "user") == None;
    assert [] + [1] == [1];
    assert Grow(T0, 0, "user", false) == A1;
    assert ["user", "get", ":id"][1..] == ["get", ":id"];
  }

  lemma PutUserGet()
    ensures WellFormed(A1) && WellFormed(A2) && PutFrom(A1, 1, ["get", ":id"]) == PutFrom(A2, 2, [":id"])
  {
    WellFormedTables();
    assert Child(A1, 1, Exact, "get") == None;
    assert [] + [2] == [2];
    assert Grow(A1, 1, "get", false) == A2;
    assert ["get", ":id"][1..] == [":id"];
  }

  lemma PutUserGetId()
    ensures WellFormed(A2) && PutFrom(A2, 2, [":id"]) == Placed(T1, 3)
  {
    WellFormedTables();
    assert Child(A2, 2, Exact, ":id") == None;
    assert [] + [3] == [3];
    assert Grow(A2, 2, ":id", true) == T1;
  }

  lemma PutFirstRoute()
    ensures WellFormed(T0) && WellFormed(T1) && PutFrom(T0, 0, ["user", "get", ":id"]).nodes == T1
  {
    PutUser();
    PutUserGet();
    PutUserGetId();
  }

  lemma PutCreateUser()
    ensures WellFormed(T1) && PutFrom(T1, 0, ["user", "create", "hello"]) == PutFrom(T1, 1, ["create", "hello"])
  {
    WellFormedTables();
    assert Child(T1, 0, Exact, "user") == Some(1);
    assert ["user", "create", "hello"][1..] == ["create", "hello"];
  }

  lemma PutCreate()
    ensures WellFormed(T1) && WellFormed(B1) && PutFrom(T1, 1, ["create", "hello"]) == PutFrom(B1, 4, ["hello"])
  {
    WellFormedTables();
    assert Child(T1, 1, Exact, "create") == None;
    assert [2] + [4] == [2, 4];
    assert Grow(T1, 1, "create", false) == B1;
    assert ["create", "hello"][1..] == ["hello"];
  }

  lemma PutHello()
    ensures WellFormed(B1) && PutFrom(B1, 4, ["hello"]) == Placed(T2, 5)
  {
    WellFormedTables();
    assert Child(B1, 4, Exact, "hello") == None;
    assert [] + [5] == [5];
    assert Grow(B1, 4, "hello", true) == T2;
  }

  lemma PutSecondRoute()
    ensures WellFormed(T1) && WellFormed(T2) && PutFrom(T1, 0, ["user", "create", "hello"]).nodes == T2
  {
    PutCreateUser();
    PutCreate();
    PutHello();
  }

  lemma PutAaaUser()
    ensures WellFormed(T2) && PutFrom(T2, 0, ["user", "create", "aaa"]) == PutFrom(T2, 1, ["create", "aaa"])
  {
    WellFormedTables();
    assert Child(T2, 0, Exact, "user") == Some(1);
    assert ["user", "create", "aaa"][1..] == ["create", "aaa"];
  }

  lemma PutAaaCreate()
    ensures WellFormed(T2) && PutFrom(T2, 1, ["create", "aaa"]) == PutFrom(T2, 4, ["aaa"])
  {
    WellFormedTables();
    assert Child(T2, 1, Exact, "create") == Some(4);
    assert ["create", "aaa"][1..] == ["aaa"];
  }

  lemma PutAaa()
    ensures WellFormed(T2) && PutFrom(T2, 4, ["aaa"]) == Placed(T3, 6)
  {
    WellFormedTables();
    assert Child(T2, 4, Exact, "aaa") == None;
    assert [5] + [6] == [5, 6];
    assert Grow(T2, 4, "aaa", true) == T3;
  }

  lemma PutThirdRoute()
    ensures WellFormed(T2) && WellFormed(T3) && PutFrom(T2, 0, ["user", "create", "aaa"]).nodes == T3
  {
    PutAaaUser();
    PutAaaCreate();
    PutAaa();
  }

  lemma T3ChildUser()
    ensures WellFormed(T3)
    ensures Child(T3, 0, Pattern, "user") == Some(1) == Child(T3, 0, Exact, "user")
  {
    WellFormedT3();
  }

  lemma T3ChildGet()
    ensures WellFormed(T3) && Child(T3, 1, Pattern, "get") == Some(2)
  {
    WellFormedT3();
  }

  lemma T3ChildId()
    ensures WellFormed(T3) && Child(T3, 2, Pattern, "1") == Some(3)
  {
    WellFormedT3();
    assert ':' in T3[3].name;
  }

  lemma T3ChildCreate()
    ensures WellFormed(T3)
    ensures Child(T3, 1, Pattern, "create") == Some(4) == Child(T3, 1, Exact, "create")
  {
    WellFormedT3();
  }

  lemma T3ChildHello()
    ensures WellFormed(T3)
    ensures Child(T3, 4, Pattern, "hello") == Some(5) == Child(T3, 4, Exact, "hello")
  {
    WellFormedT3();
  }

  lemma T3Children()
    ensures WellFormed(T3)
    ensures Child(T3, 0, Pattern, "user") == Some(1) == Child(T3, 0, Exact, "user")
    ensures Child(T3, 1, Pattern, "get") == Some(2)
    ensures Child(T3, 2, Pattern, "1") == Some(3)
    ensures Child(T3, 1, Pattern, "create") == Some(4) == Child(T3, 1, Exact, "create")
    ensures Child(T3, 4, Pattern, "hello") == Some(5) == Child(T3, 4, Exact, "hello")
  {
    T3ChildUser();
    T3ChildGet();
    T3ChildId();
    T3ChildCreate();
    T3ChildHello();
  }

  /** One matched step of Get on any trie shaped like T3. */
  lemma GetStepT3(nodes: seq<Node>, cur: nat, segs: seq<string>, acc: string, c: nat)
    requires WellFormed(nodes) && Shape(nodes) == Shape(T3) && cur < |nodes| && |segs| > 0
    requires Child(T3, cur, Pattern, segs[0]) == Some(c)
    ensures c < |nodes| && nodes[c].name == T3[c].name
    ensures var stamped := nodes[c := nodes[c].(routerName := acc + "/" + T3[c].name)];
            WellFormed(stamped) && Shape(stamped) == Shape(T3) &&
            GetFrom(nodes, cur, segs, acc) ==
              if |segs| == 1 then Lookup(Some(c), acc + "/" + T3[c].name, stamped)
              else GetFrom(stamped, c, segs[1..], acc + "/" + T3[c].name)
  {
    WellFormedTables();
    ChildShape(nodes, T3, cur, Pattern, segs[0]);
    assert nodes[c].name == Shape(nodes)[c].name == Shape(T3)[c].name == T3[c].name;
    GetMatchStep(nodes, cur, segs, acc, c);
    StampShape(nodes, c, acc + "/" + T3[c].name);
  }

  /** The route names Get builds while walking T3. */
  lemma T3RouteNames()
    ensures "" + "/" + T3[1].name == "/user"
    ensures "/user" + "/" + T3[2].name == "/user/get"
    ensures "/user/get" + "/" + T3[3].name == "/user/get/:id"
    ensures "/user" + "/" + T3[4].name == "/user/create"
    ensures "/user/create" + "/" + T3[5].name == "/user/create/hello"
  {
    assert T3[1].name == "user" && T3[2].name == "get" && T3[3].name == ":id";
    assert T3[4].name == "create" && T3[5].name == "hello";
  }

  /** The lookup of the last segment "1" from "get" ends at ":id". */
  lemma GetByIdFromGet(nodes: seq<Node>)
    requires WellFormed(nodes) && Shape(nodes) == Shape(T3)
    ensures var l := GetFrom(nodes, 2, ["1"], "/user/get");
            l.node == Some(3) && l.routerName == "/user/get/:id" && l.nodes[3].name == ":id"
  {
    T3Children();
    T3RouteNames();
    GetStepT3(nodes, 2, ["1"], "/user/get", 3);
  }

  lemma GetByIdFromUser(nodes: seq<Node>)
    requires WellFormed(nodes) && Shape(nodes) == Shape(T3)
    ensures var l := GetFrom(nodes, 1, ["get", "1"], "/user");
            l.node == Some(3) && l.routerName == "/user/get/:id" && l.nodes[3].name == ":id"
  {
    T3Children();
    T3RouteNames();
    assert ["get", "1"][1..] == ["1"];
    GetStepT3(nodes, 1, ["get", "1"], "/user", 2);
    GetByIdFromGet(nodes[2 := nodes[2].(routerName := "/user/get")]);
  }

  /** Get("/user/get/1"): the ':' child of "get" captures the segment "1". */
  lemma GetById(nodes: seq<Node>)
    requires WellFormed(nodes) && Shape(nodes) == Shape(T3)
    ensures var l := GetFrom(nodes, 0, ["user", "get", "1"], "");
            l.node == Some(3) && l.routerName == "/user/get/:id" && l.nodes[3].name == ":id"
  {
    T3Children();
    T3RouteNames();
    assert ["user", "get", "1"][1..] == ["get", "1"];
    GetStepT3(nodes, 0, ["user", "get", "1"], "", 1);
    GetByIdFromUser(nodes[1 := nodes[1].(routerName := "/user")]);
  }

  lemma GetByNameFromCreate(nodes: seq<Node>)
    requires WellFormed(nodes) && Shape(nodes) == Shape(T3)
    ensures var l := GetFrom(nodes, 4, ["hello"], "/user/create");
            l.node == Some(5) && l.routerName == "/user/create/hello" && l.nodes[5].name == "hello"
  {
    T3Children();
    T3RouteNames();
    GetStepT3(nodes, 4, ["hello"], "/user/create", 5);
  }

  lemma GetByNameFromUser(nodes: seq<Node>)
    requires WellFormed(nodes) && Shape(nodes) == Shape(T3)
    ensures var l := GetFrom(nodes, 1, ["create", "hello"], "/user");
            l.node == Some(5) && l.routerName == "/user/create/hello" && l.nodes[5].name == "hello"
  {
    T3Children();
    T3RouteNames();
    assert ["create", "hello"][1..] == ["hello"];
    GetStepT3(nodes, 1, ["create", "hello"], "/user", 4);
    GetByNameFromCreate(nodes[4 := nodes[4].(routerName := "/user/create")]);
  }

  /** Get("/user/create/hello") on the trie the first Get left behind: the exactly-named path. */
  lemma GetByName(nodes: seq<Node>)
    requires WellFormed(nodes) && Shape(nodes) == Shape(T3)
    ensures var l := GetFrom(nodes, 0, ["user", "create", "hello"], "");
            l.node == Some(5) && l.routerName == "/user/create/hello" && l.nodes[5].name == "hello"
  {
    T3Children();
    T3RouteNames();
    assert ["user", "create", "hello"][1..] == ["create", "hello"];
    GetStepT3(nodes, 0, ["user", "create", "hello"], "", 1);
    GetByNameFromUser(nodes[1 := nodes[1].(routerName := "/user")]);
  }

  /** Get("/user") returns the interior "user" node: Get never looks at IsEnd. */
  lemma GetPrefix()
    ensures WellFormed(T3)
    ensures var l := GetFrom(T3, 0, Split("/user")[1..], "");
            l.node == Some(1) && !T3[1].isEnd && l.routerName == "/user"
  {
    WellFormedT3();
    SplitUser();
    assert Split("/user")[1..] == ["user"];
    assert Child(T3, 0, Pattern, "user") == Some(1);
    GetMatchStep(T3, 0, ["user"], "", 1);
  }

  /** The calls tree_test.go makes, on the Tree object, with the nodes its lookups must find. */
  method TreeTest() returns (byId: Option<nat>, idName: string, byName: Option<nat>, helloName: string)
    ensures byId == Some(3) && idName == ":id"
    ensures byName == Some(5) && helloName == "hello"
  {
    var tree := new Tree("/");
    SplitPaths();
    tree.Put("/user/get/:id");
    PutFirstRoute();
    tree.Put("/user/create/hello");
    PutSecondRoute();
    tree.Put("/user/create/aaa");
    PutThirdRoute();
    assert tree.nodes == T3;
    GetById(tree.nodes);
    byId := tree.Get("/user/get/1");
    idName := tree.nodes[byId.value].name;
    GetKeepsShape(T3, 0, ["user", "get", "1"], "");
    GetByName(tree.nodes);
    byName := tree.Get("/user/create/hello");
    helloName := tree.nodes[byName.value].name;
  }
}
