/**
 The oversampling table of crypto/common.c is sharp. Bounds on the terms are kept to about forty
 bits: lo * 2^(16t) and hi * 2^(16t) enclose the number of ways to place the rejected samples, lo * 2^e and
 hi * 2^e the powers of the number of accepted values.
 */
module OversamplingTable {
  import opened Words
  import opened HashToPoint
  import opened Oversampling

  // ---- The powers of 61445 at the degrees ----

  lemma AcceptedPower2()
    ensures NearPower(2, 3775488025, 3775488025, 0)
  {
    hide NearPower;
    AcceptedPowerOne();
    Square(1, 61445, 61445, 0, 3775488025, 3775488025, 0);
  }

  lemma AcceptedPower4()
    ensures NearPower(4, 849623073751, 849623073752, 24)
  {
    hide NearPower;
    AcceptedPower2();
    Square(2, 3775488025, 3775488025, 0, 849623073751, 849623073752, 24);
  }

  lemma AcceptedPower8()
    ensures NearPower(8, 656527270121, 656527270123, 88)
  {
    hide NearPower;
    AcceptedPower4();
    Square(4, 849623073751, 849623073752, 24, 656527270121, 656527270123, 40);
  }

  lemma AcceptedPower16()
    ensures NearPower(16, 784035467245, 784035467251, 215)
  {
    hide NearPower;
    AcceptedPower8();
    Square(8, 656527270121, 656527270123, 88, 784035467245, 784035467251, 39);
  }

  lemma AcceptedPower32()
    ensures NearPower(32, 559076955958, 559076955968, 470)
  {
    hide NearPower;
    AcceptedPower16();
    Square(16, 784035467245, 784035467251, 215, 559076955958, 559076955968, 40);
  }

  lemma AcceptedPower64()
    ensures NearPower(64, 568556138538, 568556138559, 979)
  {
    hide NearPower;
    AcceptedPower32();
    Square(32, 559076955958, 559076955968, 470, 568556138538, 568556138559, 39);
  }

  lemma AcceptedPower128()
    ensures NearPower(128, 587999389007, 587999389051, 1997)
  {
    hide NearPower;
    AcceptedPower64();
    Square(64, 568556138538, 568556138559, 979, 587999389007, 587999389051, 39);
  }

  lemma AcceptedPower256()
    ensures NearPower(256, 628903365345, 628903365440, 4033)
  {
    hide NearPower;
    AcceptedPower128();
    Square(128, 587999389007, 587999389051, 1997, 628903365345, 628903365440, 39);
  }

  lemma AcceptedPower512()
    ensures NearPower(512, 719445675608, 719445675826, 8105)
  {
    hide NearPower;
    AcceptedPower256();
    Square(256, 628903365345, 628903365440, 4033, 719445675608, 719445675826, 39);
  }

  lemma AcceptedPower1024()
    ensures NearPower(1024, 941512699048, 941512699619, 16249)
  {
    hide NearPower;
    AcceptedPower512();
    Square(512, 719445675608, 719445675826, 8105, 941512699048, 941512699619, 39);
  }

  lemma AcceptedPowerOne()
    ensures NearPower(1, 61445, 61445, 0)
  {}

  lemma Ways2At32()
    ensures Near(67, 32, 196829266998824, 196829266998825, 25)
  {
    hide Near;
    NothingChosen(67);
    Grow(67, 0, 1, 1, 0, 1102038721759705, 1102038721759706, 12, 4096);
    Grow(67, 16, 1102038721759705, 1102038721759706, 12, 196829266998824, 196829266998825, 13, 8192);
  }

  lemma Ways2At64()
    ensures Near(67, 64, 190278940134618, 190278940134620, 46)
  {
    hide Near;
    Ways2At32();
    Grow(67, 32, 196829266998824, 196829266998825, 25, 22776295901261304, 22776295901261421, 11, 2048);
    Grow(67, 48, 22776295901261304, 22776295901261421, 36, 190278940134618, 190278940134620, 10, 1024);
  }

  lemma Ways2At66()
    ensures Near(67, 66, 67961618073473, 67961618073474, 47)
  {
    hide Near;
    Ways2At64();
    GrowRest(67, 64, 2, 190278940134618, 190278940134620, 46, 67961618073473, 67961618073474, 1);
  }

  lemma Degree2()
    ensures Sharp(2, 65)
  {
    hide Near, NearPower, Sharp;
    Ways2At66();
    AcceptedPower2();
    Decide(2, 65, 67961618073473, 67961618073474, 47, 3775488025, 3775488025, 0, 48);
  }

  lemma Ways4At32()
    ensures Near(71, 32, 2325153552423711, 2325153552423712, 25)
  {
    hide Near;
    NothingChosen(71);
    Grow(71, 0, 1, 1, 0, 3139609134646878, 3139609134646879, 12, 4096);
    Grow(71, 16, 3139609134646878, 3139609134646879, 12, 2325153552423711, 2325153552423712, 13, 8192);
  }

  lemma Ways4At64()
    ensures Near(71, 64, 80602015031084, 80602015031087, 47)
  {
    hide Near;
    Ways4At32();
    Grow(71, 32, 2325153552423711, 2325153552423712, 25, 38134473145672, 38134473145673, 12, 4096);
    Grow(71, 48, 38134473145672, 38134473145673, 37, 80602015031084, 80602015031087, 10, 1024);
  }

  lemma Ways4At68()
    ensures Near(71, 68, 225913526226025, 225913526226034, 49)
  {
    hide Near;
    Ways4At64();
    GrowRest(71, 64, 4, 80602015031084, 80602015031087, 47, 225913526226025, 225913526226034, 2);
  }

  lemma Degree4()
    ensures Sharp(4, 67)
  {
    hide Near, NearPower, Sharp;
    Ways4At68();
    AcceptedPower4();
    Decide(4, 67, 225913526226025, 225913526226034, 49, 849623073751, 849623073752, 24, 56);
  }

  lemma Ways8At32()
    ensures Near(79, 32, 2943496918060, 2943496918061, 26)
  {
    hide Near;
    NothingChosen(79);
    Grow(79, 0, 1, 1, 0, 21149189222159266, 21149189222159267, 12, 4096);
    Grow(79, 16, 21149189222159266, 21149189222159267, 12, 2943496918060, 2943496918061, 14, 16384);
  }

  lemma Ways8At64()
    ensures Near(79, 64, 4986217803053545, 4986217803058729, 48)
  {
    hide Near;
    Ways8At32();
    Grow(79, 32, 2943496918060, 2943496918061, 26, 1924353397105, 1924353397107, 12, 4096);
    Grow(79, 48, 1924353397105, 1924353397107, 38, 4986217803053545, 4986217803058729, 10, 1024);
  }

  lemma Ways8At72()
    ensures Near(79, 72, 173979275930646, 173979275930828, 53)
  {
    hide Near;
    Ways8At64();
    GrowRest(79, 64, 8, 4986217803053545, 4986217803058729, 48, 173979275930646, 173979275930828, 5);
  }

  lemma Degree8()
    ensures Sharp(8, 71)
  {
    hide Near, NearPower, Sharp;
    Ways8At72();
    AcceptedPower8();
    Decide(8, 71, 173979275930646, 173979275930828, 53, 656527270121, 656527270123, 88, 56);
  }

  lemma Ways16At32()
    ensures Near(93, 32, 1939262834915114, 1939262834915456, 26)
  {
    hide Near;
    NothingChosen(93);
    Grow(93, 0, 1, 1, 0, 5698294579297, 5698294579298, 13, 8192);
    Grow(93, 16, 5698294579297, 5698294579298, 13, 1939262834915114, 1939262834915456, 13, 8192);
  }

  lemma Ways16At64()
    ensures Near(93, 64, 222015040752703, 222015040752874, 50)
  {
    hide Near;
    Ways16At32();
    Grow(93, 32, 1939262834915114, 1939262834915456, 26, 2609906990415, 2609906990417, 13, 8192);
    Grow(93, 48, 2609906990415, 2609906990417, 39, 222015040752703, 222015040752874, 11, 2048);
  }

  lemma Ways16At78()
    ensures Near(93, 78, 277409415290490, 277409415290705, 59)
  {
    hide Near;
    Ways16At64();
    GrowRest(93, 64, 14, 222015040752703, 222015040752874, 50, 277409415290490, 277409415290705, 9);
  }

  lemma Degree16()
    ensures Sharp(16, 77)
  {
    hide Near, NearPower, Sharp;
    Ways16At78();
    AcceptedPower16();
    Decide(16, 77, 277409415290490, 277409415290705, 59, 784035467245, 784035467251, 215, 57);
  }

  lemma Ways32At32()
    ensures Near(118, 32, 251060136521746, 251060136521748, 27)
  {
    hide Near;
    NothingChosen(118);
    Grow(118, 0, 1, 1, 0, 348460391004870, 348460391004871, 13, 8192);
    Grow(118, 16, 348460391004870, 348460391004871, 13, 251060136521746, 251060136521748, 14, 16384);
  }

  lemma Ways32At64()
    ensures Near(118, 64, 801790703197550, 801790703197561, 52)
  {
    hide Near;
    Ways32At32();
    Grow(118, 32, 251060136521746, 251060136521748, 27, 161053292203861, 161053292203863, 13, 8192);
    Grow(118, 48, 161053292203861, 161053292203863, 40, 801790703197550, 801790703197561, 12, 4096);
  }

  lemma Ways32At87()
    ensures Near(118, 87, 1381505770184791, 1381505770187037, 68)
  {
    hide Near;
    Ways32At64();
    Grow(118, 64, 801790703197550, 801790703197561, 52, 615262218941, 615262218942, 12, 4096);
    GrowRest(118, 80, 7, 615262218941, 615262218942, 64, 1381505770184791, 1381505770187037, 4);
  }

  lemma Degree32()
    ensures Sharp(32, 86)
  {
    hide Near, NearPower, Sharp;
    Ways32At87();
    AcceptedPower32();
    Decide(32, 86, 1381505770184791, 1381505770187037, 68, 559076955958, 559076955968, 470, 58);
  }

  lemma Ways64At32()
    ensures Near(164, 32, 582403183333200, 582403183333616, 28)
  {
    hide Near;
    NothingChosen(164);
    Grow(164, 0, 1, 1, 0, 1403284569416, 1403284569417, 14, 16384);
    Grow(164, 16, 1403284569416, 1403284569417, 14, 582403183333200, 582403183333616, 14, 16384);
  }

  lemma Ways64At64()
    ensures Near(164, 64, 4944228517837, 4944228517842, 55)
  {
    hide Near;
    Ways64At32();
    Grow(164, 32, 582403183333200, 582403183333616, 28, 9289235101757, 9289235101765, 14, 16384);
    Grow(164, 48, 9289235101757, 9289235101765, 42, 4944228517837, 4944228517842, 13, 8192);
  }

  lemma Ways64At96()
    ensures Near(164, 96, 22893676472646, 22893676472670, 79)
  {
    hide Near;
    Ways64At64();
    Grow(164, 64, 4944228517837, 4944228517842, 55, 242058254420538, 242058254420784, 12, 4096);
    Grow(164, 80, 242058254420538, 242058254420784, 67, 22893676472646, 22893676472670, 12, 4096);
  }

  lemma Ways64At101()
    ensures Near(164, 101, 12265626900404828, 12265626900417687, 82)
  {
    hide Near;
    Ways64At96();
    GrowRest(164, 96, 5, 22893676472646, 22893676472670, 79, 12265626900404828, 12265626900417687, 3);
  }

  lemma Degree64()
    ensures Sharp(64, 100)
  {
    hide Near, NearPower, Sharp;
    Ways64At101();
    AcceptedPower64();
    Decide(64, 100, 12265626900404828, 12265626900417687, 82, 568556138538, 568556138559, 979, 61);
  }

  lemma Ways128At32()
    ensures Near(250, 32, 20617559557416013, 20617559557416027, 29)
  {
    hide Near;
    NothingChosen(250);
    Grow(250, 0, 1, 1, 0, 1556198707387434, 1556198707387435, 14, 16384);
    Grow(250, 16, 1556198707387434, 1556198707387435, 14, 20617559557416013, 20617559557416027, 15, 32768);
  }

  lemma Ways128At64()
    ensures Near(250, 64, 2102544696075, 2102544696076, 58)
  {
    hide Near;
    Ways128At32();
    Grow(250, 32, 20617559557416013, 20617559557416027, 29, 22539257693892, 22539257693893, 15, 32768);
    Grow(250, 48, 22539257693892, 22539257693893, 44, 2102544696075, 2102544696076, 14, 16384);
  }

  lemma Ways128At96()
    ensures Near(250, 96, 14948771617722, 14948771617730, 84)
  {
    hide Near;
    Ways128At64();
    Grow(250, 64, 2102544696075, 2102544696076, 58, 58933191903038, 58933191903067, 13, 8192);
    Grow(250, 80, 58933191903038, 58933191903067, 71, 14948771617722, 14948771617730, 13, 8192);
  }

  lemma Ways128At123()
    ensures Near(250, 123, 2956823319747, 2956823319750, 105)
  {
    hide Near;
    Ways128At96();
    Grow(250, 96, 14948771617722, 14948771617730, 84, 3288432716333708, 3288432716335469, 12, 4096);
    GrowRest(250, 112, 11, 3288432716333708, 3288432716335469, 96, 2956823319747, 2956823319750, 9);
  }

  lemma Degree128()
    ensures Sharp(128, 122)
  {
    hide Near, NearPower, Sharp;
    Ways128At123();
    AcceptedPower128();
    Decide(128, 122, 2956823319747, 2956823319750, 105, 587999389007, 587999389051, 1997, 51);
  }

  lemma Ways256At32()
    ensures Near(410, 32, 82639903047050, 82639903047052, 31)
  {
    hide Near;
    NothingChosen(410);
    Grow(410, 0, 1, 1, 0, 78931707353978, 78931707353979, 15, 32768);
    Grow(410, 16, 78931707353978, 78931707353979, 15, 82639903047050, 82639903047052, 16, 65536);
  }

  lemma Ways256At64()
    ensures Near(410, 64, 16271807764486, 16271807764487, 61)
  {
    hide Near;
    Ways256At32();
    Grow(410, 32, 82639903047050, 82639903047052, 31, 768420510589999, 768420510590018, 15, 32768);
    Grow(410, 48, 768420510589999, 768420510590018, 46, 16271807764486, 16271807764487, 15, 32768);
  }

  lemma Ways256At96()
    ensures Near(410, 96, 44019709332295, 44019709332299, 89)
  {
    hide Near;
    Ways256At64();
    Grow(410, 64, 16271807764486, 16271807764487, 61, 195421320274934, 195421320274947, 14, 16384);
    Grow(410, 80, 195421320274934, 195421320274947, 75, 44019709332295, 44019709332299, 14, 16384);
  }

  lemma Ways256At128()
    ensures Near(410, 128, 6011843453564, 6011843453566, 116)
  {
    hide Near;
    Ways256At96();
    Grow(410, 96, 44019709332295, 44019709332299, 89, 20030571553760189, 20030571553762010, 13, 8192);
    Grow(410, 112, 20030571553760189, 20030571553762010, 102, 6011843453564, 6011843453566, 14, 16384);
  }

  lemma Ways256At155()
    ensures Near(410, 155, 692053760311, 692053760312, 138)
  {
    hide Near;
    Ways256At128();
    Grow(410, 128, 6011843453564, 6011843453566, 116, 6480102319270, 6480102319273, 13, 8192);
    GrowRest(410, 144, 11, 6480102319270, 6480102319273, 129, 692053760311, 692053760312, 9);
  }

  lemma Degree256()
    ensures Sharp(256, 154)
  {
    hide Near, NearPower, Sharp;
    Ways256At155();
    AcceptedPower256();
    Decide(256, 154, 692053760311, 692053760312, 138, 628903365345, 628903365440, 4033, 47);
  }

  lemma Ways512At32()
    ensures Near(717, 32, 1932927393637, 1932927393638, 33)
  {
    hide Near;
    NothingChosen(717);
    Grow(717, 0, 1, 1, 0, 10472850733639, 10472850733640, 16, 65536);
    Grow(717, 16, 10472850733639, 10472850733640, 16, 1932927393637, 1932927393638, 17, 131072);
  }

  lemma Ways512At64()
    ensures Near(717, 64, 1964864789439869, 1964864789441244, 64)
  {
    hide Near;
    Ways512At32();
    Grow(717, 32, 1932927393637, 1932927393638, 33, 4290019047114, 4290019047117, 16, 65536);
    Grow(717, 48, 4290019047114, 4290019047117, 49, 1964864789439869, 1964864789441244, 15, 32768);
  }

  lemma Ways512At96()
    ensures Near(717, 96, 1684350691602651, 1684350691603831, 94)
  {
    hide Near;
    Ways512At64();
    Grow(717, 64, 1964864789439869, 1964864789441244, 64, 11021921269517542, 11021921269525256, 15, 32768);
    Grow(717, 80, 11021921269517542, 11021921269525256, 79, 1684350691602651, 1684350691603831, 15, 32768);
  }

  lemma Ways512At128()
    ensures Near(717, 128, 365851699892943, 365851699893221, 123)
  {
    hide Near;
    Ways512At96();
    Grow(717, 96, 1684350691602651, 1684350691603831, 94, 11864628426165, 11864628426174, 15, 32768);
    Grow(717, 112, 11864628426165, 11864628426174, 109, 365851699892943, 365851699893221, 14, 16384);
  }

  lemma Ways512At160()
    ensures Near(717, 160, 291328003976509, 291328003976732, 151)
  {
    hide Near;
    Ways512At128();
    Grow(717, 128, 365851699892943, 365851699893221, 123, 991468660951044, 991468660951799, 14, 16384);
    Grow(717, 144, 991468660951044, 991468660951799, 137, 291328003976509, 291328003976732, 14, 16384);
  }

  lemma Ways512At192()
    ensures Near(717, 192, 3929427221386272, 3929427221389504, 178)
  {
    hide Near;
    Ways512At160();
    Grow(717, 160, 291328003976509, 291328003976732, 151, 10944026078215, 10944026078224, 14, 16384);
    Grow(717, 176, 10944026078215, 10944026078224, 165, 3929427221386272, 3929427221389504, 13, 8192);
  }

  lemma Ways512At206()
    ensures Near(717, 206, 148088985097034, 148088985097157, 190)
  {
    hide Near;
    Ways512At192();
    GrowRest(717, 192, 14, 3929427221386272, 3929427221389504, 178, 148088985097034, 148088985097157, 12);
  }

  lemma Degree512()
    ensures Sharp(512, 205)
  {
    hide Near, NearPower, Sharp;
    Ways512At206();
    AcceptedPower512();
    Decide(512, 205, 148088985097034, 148088985097157, 190, 719445675608, 719445675826, 8105, 55);
  }

  lemma Ways1024At32()
    ensures Near(1311, 32, 9901439431650246, 9901439431653924, 34)
  {
    hide Near;
    NothingChosen(1311);
    Grow(1311, 0, 1, 1, 0, 2692938113781, 2692938113782, 17, 131072);
    Grow(1311, 16, 2692938113781, 2692938113782, 17, 9901439431650246, 9901439431653924, 17, 131072);
  }

  lemma Ways1024At64()
    ensures Near(1311, 64, 24027892849960, 24027892849970, 68)
  {
    hide Near;
    Ways1024At32();
    Grow(1311, 32, 9901439431650246, 9901439431653924, 34, 7944934303449452, 7944934303452404, 17, 131072);
    Grow(1311, 48, 7944934303449452, 7944934303452404, 51, 24027892849960, 24027892849970, 17, 131072);
  }

  lemma Ways1024At96()
    ensures Near(1311, 96, 6799205973251, 6799205973255, 100)
  {
    hide Near;
    Ways1024At64();
    Grow(1311, 64, 24027892849960, 24027892849970, 68, 70290087720699, 70290087720730, 16, 65536);
    Grow(1311, 80, 70290087720699, 70290087720730, 84, 6799205973251, 6799205973255, 16, 65536);
  }

  lemma Ways1024At128()
    ensures Near(1311, 128, 1091265899631, 1091265899632, 131)
  {
    hide Near;
    Ways1024At96();
    Grow(1311, 96, 6799205973251, 6799205973255, 100, 2429889410593277, 2429889410594707, 15, 32768);
    Grow(1311, 112, 2429889410593277, 2429889410594707, 115, 1091265899631, 1091265899632, 16, 65536);
  }

  lemma Ways1024At160()
    ensures Near(1311, 160, 1536617229621, 1536617229623, 161)
  {
    hide Near;
    Ways1024At128();
    Grow(1311, 128, 1091265899631, 1091265899632, 131, 3510396068852, 3510396068856, 15, 32768);
    Grow(1311, 144, 3510396068852, 3510396068856, 146, 1536617229621, 1536617229623, 15, 32768);
  }

  lemma Ways1024At192()
    ensures Near(1311, 192, 94613222847577, 94613222847701, 190)
  {
    hide Near;
    Ways1024At160();
    Grow(1311, 160, 1536617229621, 1536617229623, 161, 7142400550130055, 7142400550139352, 14, 16384);
    Grow(1311, 176, 7142400550130055, 7142400550139352, 175, 94613222847577, 94613222847701, 15, 32768);
  }

  lemma Ways1024At224()
    ensures Near(1311, 224, 11144542685824, 11144542685840, 219)
  {
    hide Near;
    Ways1024At192();
    Grow(1311, 192, 94613222847577, 94613222847701, 190, 17258521441878396, 17258521441901016, 14, 16384);
    Grow(1311, 208, 17258521441878396, 17258521441901016, 204, 11144542685824, 11144542685840, 15, 32768);
  }

  lemma Ways1024At256()
    ensures Near(1311, 256, 345122909115623, 345122909116122, 247)
  {
    hide Near;
    Ways1024At224();
    Grow(1311, 224, 11144542685824, 11144542685840, 219, 119045463671997, 119045463672169, 14, 16384);
    Grow(1311, 240, 119045463671997, 119045463672169, 233, 345122909115623, 345122909116122, 14, 16384);
  }

  lemma Ways1024At288()
    ensures Near(1311, 288, 73989847612889, 73989847612997, 275)
  {
    hide Near;
    Ways1024At256();
    Grow(1311, 256, 345122909115623, 345122909116122, 247, 289180117838215, 289180117838634, 14, 16384);
    Grow(1311, 272, 289180117838215, 289180117838634, 261, 73989847612889, 73989847612997, 14, 16384);
  }

  lemma Degree1024()
    ensures Sharp(1024, 287)
  {
    hide Near, NearPower, Sharp;
    Ways1024At288();
    AcceptedPower1024();
    Decide(1024, 287, 73989847612889, 73989847612997, 275, 941512699048, 941512699619, 16249, 55);
  }

  lemma NothingChosen(m: nat)
    ensures Near(m, 0, 1, 1, 0)
  {}

  lemma SharpAt(logn: nat)
    requires 1 <= logn <= 10
    ensures Pow2(logn) > 0 && Sharp(Pow2(logn), Over(logn))
  {
    hide Pow2, Sharp;
    Pow2Values();
    if logn == 1 { Degree2(); }
    else if logn == 2 { Degree4(); }
    else if logn == 3 { Degree8(); }
    else if logn == 4 { Degree16(); }
    else if logn == 5 { Degree32(); }
    else if logn == 6 { Degree64(); }
    else if logn == 7 { Degree128(); }
    else if logn == 8 { Degree256(); }
    else if logn == 9 { Degree512(); }
    else { Degree1024(); }
  }

  /**
   With the oversampling of the source, the streams that hold too few accepted samples are fewer than
   2^-256 of all; with one sample less they would not be, at any degree.
   */
  lemma OversamplingSharp(logn: nat)
    requires 1 <= logn <= 10
    ensures var n, m := Pow2(logn), Pow2(logn) + Over(logn);
      && |TooFew(m, n)| * Pow2(256) < |Streams(m)|
      && |TooFew(m - 1, n)| * Pow2(256) >= |Streams(m - 1)|
  {
    hide *;
    SharpAt(logn);
    OverPositive(logn);
    SharpMeaning(Pow2(logn), Over(logn));
    SharpSizes(Pow2(logn), Over(logn));
  }

  lemma SharpSizes(n: nat, over: nat)
    requires n > 0 && over > 0
    ensures |TooFew(n + over, n)| == Count(n + over, over + 1) && |TooFew(n + over - 1, n)| == Count(n + over - 1, over)
    ensures |Streams(n + over)| == Power(0x1_0000, n + over) && |Streams(n + over - 1)| == Power(0x1_0000, n + over - 1)
    ensures Power(2, 256) == Pow2(256)
  {
    hide *;
    TooFewSize(n + over, n);
    TooFewSize(n + over - 1, n);
    StreamsSize(n + over);
    StreamsSize(n + over - 1);
    PowerIsPow2(256);
  }

  lemma SharpMeaning(n: nat, over: nat)
    requires n > 0 && Sharp(n, over)
    ensures Count(n + over, over + 1) * Power(2, 256) < Power(0x1_0000, n + over)
    ensures Count(n + over - 1, over) * Power(2, 256) >= Power(0x1_0000, n + over - 1)
  {}

  lemma OverPositive(logn: nat)
    requires 1 <= logn <= 10
    ensures Over(logn) > 0
  {}

  lemma StreamsSize(m: nat)
    ensures |Streams(m)| == Power(0x1_0000, m)
  {
    hide Power, Count, Failures;
    CountMeaning(m, 0);
    CountAll(m);
  }

  lemma {:induction false} PowerIsPow2(k: nat)
    ensures Power(2, k) == Pow2(k)
  {
    if k > 0 {
      PowerIsPow2(k - 1);
      PowerNext(2, k - 1);
    }
  }
}
